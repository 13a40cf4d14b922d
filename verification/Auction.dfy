/** Sealed-bid auctions of the task market: one bid book from opening to settlement, with commit,
    reveal, the close that enumerates the revealed bids, the return of bonds, and the token accounts
    that bonds move between. */
module Auction {
  import opened Wrappers
  import opened Bytes
  import opened BidCommitment
  import opened AgentIdentity

  const MAX_BIDDERS_PER_TASK: nat := 64
  const MIN_BID_BOND_BPS: nat := 50
  const MAX_BID_BOND_BPS: nat := 500
  const BPS_DENOM: nat := 10_000

  /** A token account of the payment mint, by its authority and address. */
  datatype Wallet = Wallet(owner: Key, id: Key)

  datatype Destination = ToEscrow | ToWallet(wallet: Wallet)

  datatype Phase = Commit | Reveal | Settled | Cancelled

  datatype Bid = Bid(
    agentDid: bytes32,
    commitHash: bytes32,
    bondPaid: u64,
    revealedAmount: u64,
    revealed: bool,
    refunded: bool,
    slashed: bool)

  datatype Winner = Winner(agent: Key, bidder: Key, did: bytes32, amount: u64)

  datatype Book = Book(
    phase: Phase,
    commitStart: int,
    commitEnd: int,
    revealEnd: int,
    bondAmount: u64,
    paymentAmount: u64,
    commitCount: nat,
    revealCount: nat,
    winner: Option<Winner>,
    bids: map<Key, Bid>,
    escrow: nat,
    wallets: map<Wallet, nat>)

  datatype Error =
    | NotAdmitted
    | Paused
    | BidBookAlreadyOpen
    | BondOutOfRange
    | WindowInvalid
    | ArithmeticOverflow
    | AccountMissing
    | AlreadyInUse
    | AgentMismatch
    | CallerNotOperator
    | PhaseClosed
    | TooManyBidders
    | InsufficientFunds
    | WrongStatus
    | InvalidAmount
    | IncompleteBidEnumeration
    | DuplicateBidEnumeration
    | InvalidBidInEnumeration
    | Unauthorized
    | BidBookNotSettled
    | AlreadyRefunded
    | EscrowNotEmpty

  datatype Outcome = Ok | Err(error: Error)

  // ----- agents

  /** An agent account as a handler reads it. */
  datatype Agent = Agent(key: Key, did: bytes32, operator: Key, stake: u64)

  predicate Genuine(hash: HashFn, reg: Registry, a: Agent) {
    && a.key in reg.registered
    && a.operator == reg.registered[a.key].operator
    && a.did == ComputeDid(hash, reg.registered[a.key])
  }

  // ----- the order on bids

  datatype Candidate = Candidate(amount: u64, stake: u64, agent: Key, bidder: Key, did: bytes32)

  /** Lower amount first, then higher stake, then smaller agent key. */
  predicate BidBeats(a: Candidate, b: Candidate) {
    if a.amount != b.amount then a.amount < b.amount
    else if a.stake != b.stake then a.stake > b.stake
    else LexLess(a.agent, b.agent)
  }

  /** The order is a strict total order on candidates with different agents. */
  lemma BeatsIsStrictTotalOrder(a: Candidate, b: Candidate, c: Candidate)
    ensures !BidBeats(a, a)
    ensures !(BidBeats(a, b) && BidBeats(b, a))
    ensures BidBeats(a, b) && BidBeats(b, c) ==> BidBeats(a, c)
    ensures a.agent != b.agent ==> BidBeats(a, b) || BidBeats(b, a)
  {
    LexTrichotomy(a.agent, b.agent);
    LexTrichotomy(a.agent, a.agent);
    LexIsNumeric(a.agent, b.agent);
    LexIsNumeric(b.agent, c.agent);
    LexIsNumeric(a.agent, c.agent);
  }

  // ----- opening

  datatype Task = Task(funded: bool, hasBook: bool, paymentAmount: u64, deadline: i64)

  function BondAmount(payment: nat, bondBps: nat): nat {
    payment * bondBps / BPS_DENOM
  }

  function OpenRefusal(paused: bool, t: Task, commitSecs: i64, revealSecs: i64, bondBps: u16, now: i64): Option<Error> {
    if paused then Some(Paused)
    else if !t.funded then Some(WrongStatus)
    else if t.hasBook then Some(BidBookAlreadyOpen)
    else if !(MIN_BID_BOND_BPS <= bondBps <= MAX_BID_BOND_BPS) then Some(BondOutOfRange)
    else if !(commitSecs > 0 && revealSecs > 0) then Some(WindowInvalid)
    else if !FitsI64(now + commitSecs) then Some(ArithmeticOverflow)
    else if !FitsI64(now + commitSecs + revealSecs) then Some(ArithmeticOverflow)
    else if now + commitSecs + revealSecs > t.deadline then Some(WindowInvalid)
    else if BondAmount(t.paymentAmount, bondBps) >= U64_LIMIT then Some(ArithmeticOverflow)
    else None
  }

  /** A fresh book. Bid accounts belong to the task, not to the book, and closing them is up to their
      bidders, so `leftover` ones of an earlier book of the task are still there. */
  function Opened(t: Task, commitSecs: int, revealSecs: int, bond: u64, now: int, wallets: map<Wallet, nat>,
                  leftover: map<Key, Bid>): Book
  {
    Book(Commit, now, now + commitSecs, now + commitSecs + revealSecs, bond, t.paymentAmount, 0, 0, None, leftover, 0,
         wallets)
  }

  /** A bond is the rate's share of the payment, rounded down. Within the allowed rates it is at most
      five percent of the payment and more than half a percent of it less one unit, so it always fits. */
  lemma BondWithinTerms(payment: nat, bps: nat)
    requires MIN_BID_BOND_BPS <= bps <= MAX_BID_BOND_BPS
    ensures 10_000 * BondAmount(payment, bps) <= payment * bps < 10_000 * (BondAmount(payment, bps) + 1)
    ensures 20 * BondAmount(payment, bps) <= payment < 200 * (BondAmount(payment, bps) + 1)
  {
    ProductBounds(payment, bps);
  }

  lemma ProductBounds(payment: nat, bps: nat)
    requires 50 <= bps <= 500
    ensures payment * 50 <= payment * bps <= payment * 500
  {
  }

  /** An opening is accepted exactly for a funded task without a book, an allowed bond rate, and two
      windows with room before the deadline; the overflow checks never decide. */
  lemma OpenedWithinTerms(paused: bool, t: Task, commitSecs: i64, revealSecs: i64, bondBps: u16, now: i64)
    ensures OpenRefusal(paused, t, commitSecs, revealSecs, bondBps, now).None? <==>
      && !paused && t.funded && !t.hasBook && 50 <= bondBps <= 500
      && now < now + commitSecs < now + commitSecs + revealSecs <= t.deadline
  {
    if MIN_BID_BOND_BPS <= bondBps <= MAX_BID_BOND_BPS {
      BondWithinTerms(t.paymentAmount, bondBps);
    }
  }

  // ----- commit and reveal

  datatype CommitRequest = CommitRequest(bidder: Key, agent: Agent, agentDid: bytes32, commitHash: bytes32,
                                         source: Key, admitted: bool)

  /** The first check that a commit fails. `admitted` stands for the pause flag, the agent's status,
      its capability bit and the personhood tier. */
  function CommitRefusal(b: Book, q: CommitRequest, now: int): Option<Error> {
    if q.bidder in b.bids then Some(AlreadyInUse)
    else if Wallet(q.bidder, q.source) !in b.wallets then Some(AccountMissing)
    else if q.agent.operator != q.bidder then Some(CallerNotOperator)
    else if q.agent.did != q.agentDid then Some(AgentMismatch)
    else if !q.admitted then Some(NotAdmitted)
    else if b.phase != Commit then Some(PhaseClosed)
    else if !(b.commitStart <= now < b.commitEnd) then Some(PhaseClosed)
    else if b.commitCount >= MAX_BIDDERS_PER_TASK then Some(TooManyBidders)
    else if b.wallets[Wallet(q.bidder, q.source)] < b.bondAmount then Some(InsufficientFunds)
    else None
  }

  function AfterCommit(b: Book, q: CommitRequest, now: int): Book {
    if CommitRefusal(b, q, now).Some? then b
    else
      var source := Wallet(q.bidder, q.source);
      b.(bids := b.bids[q.bidder := Bid(q.agentDid, q.commitHash, b.bondAmount, 0, false, false, false)],
         commitCount := b.commitCount + 1,
         wallets := b.wallets[source := b.wallets[source] - b.bondAmount],
         escrow := b.escrow + b.bondAmount)
  }

  predicate Opens(hash: HashFn, bid: Bid, amount: u64, nonce: bytes32) {
    RevealCommitHash(hash, amount, nonce, bid.agentDid) == bid.commitHash
  }

  function RevealRefusal(hash: HashFn, b: Book, bidder: Key, amount: u64, nonce: bytes32, now: int): Option<Error> {
    if bidder !in b.bids then Some(AccountMissing)
    else if b.phase != Commit && b.phase != Reveal then Some(PhaseClosed)
    else if !(b.commitEnd <= now < b.revealEnd) then Some(PhaseClosed)
    else if b.bids[bidder].revealed || b.bids[bidder].slashed then Some(WrongStatus)
    else if Opens(hash, b.bids[bidder], amount, nonce) && !(0 < amount <= b.paymentAmount) then Some(InvalidAmount)
    else None
  }

  /** A reveal that does not open the commitment is not an error: it marks the bid as slashed. */
  function AfterReveal(hash: HashFn, b: Book, bidder: Key, amount: u64, nonce: bytes32, now: int): Book {
    if RevealRefusal(hash, b, bidder, amount, nonce, now).Some? then b
    else
      var bid := b.bids[bidder];
      if Opens(hash, bid, amount, nonce) then
        b.(phase := Reveal,
           bids := b.bids[bidder := bid.(revealedAmount := amount, revealed := true)],
           revealCount := b.revealCount + 1)
      else
        b.(phase := Reveal, bids := b.bids[bidder := bid.(slashed := true)])
  }

  // ----- the close

  /** One pair of accounts handed to the close: a bid and the agent account beside it, which may or
      may not be owned by the registry program. */
  datatype Entry = Entry(bidder: Key, agent: Agent, ownedByRegistry: bool)

  function EntryRefusal(bids: map<Key, Bid>, seen: seq<Entry>, e: Entry): Option<Error> {
    if e.bidder !in bids then Some(AccountMissing)
    else if exists k :: 0 <= k < |seen| && seen[k].bidder == e.bidder then Some(DuplicateBidEnumeration)
    else if !bids[e.bidder].revealed || bids[e.bidder].slashed then Some(InvalidBidInEnumeration)
    else if !e.ownedByRegistry then Some(Unauthorized)
    else if e.agent.did != bids[e.bidder].agentDid then Some(AgentMismatch)
    else None
  }

  function CandidateOf(bids: map<Key, Bid>, e: Entry): Candidate
    requires e.bidder in bids
  {
    Candidate(bids[e.bidder].revealedAmount, e.agent.stake, e.agent.key, e.bidder, e.agent.did)
  }

  datatype Scan = Fault(error: Error) | Leader(best: Option<Candidate>)

  function Better(best: Option<Candidate>, c: Candidate): Option<Candidate> {
    if best.None? || BidBeats(c, best.value) then Some(c) else best
  }

  /** The scan over the enumerated pairs, keeping the leader. */
  function ScanEntries(bids: map<Key, Bid>, entries: seq<Entry>): Scan {
    if |entries| == 0 then Leader(None)
    else
      var before, last := entries[..|entries| - 1], entries[|entries| - 1];
      match ScanEntries(bids, before)
      case Fault(e) => Fault(e)
      case Leader(best) =>
        var refusal := EntryRefusal(bids, before, last);
        if refusal.Some? then Fault(refusal.value) else Leader(Better(best, CandidateOf(bids, last)))
  }

  function CloseRefusal(b: Book, entries: seq<Entry>, now: int): Option<Error> {
    if b.phase != Commit && b.phase != Reveal then Some(PhaseClosed)
    else if now < b.revealEnd then Some(PhaseClosed)
    else if |entries| != b.revealCount then Some(IncompleteBidEnumeration)
    else match ScanEntries(b.bids, entries)
      case Fault(e) => Some(e)
      case Leader(_) => None
  }

  function AfterClose(b: Book, entries: seq<Entry>, now: int): Book {
    if CloseRefusal(b, entries, now).Some? then b
    else match ScanEntries(b.bids, entries).best
      case None => b.(phase := Cancelled, winner := None)
      case Some(c) => b.(phase := Settled, winner := Some(Winner(c.agent, c.bidder, c.did, c.amount)))
  }

  // ----- bonds

  datatype BondFate = WinnerRetain | Refund | Slash

  function FateOf(b: Book, bidder: Key): BondFate
    requires bidder in b.bids
  {
    var bid := b.bids[bidder];
    if b.phase == Cancelled then Refund
    else if !bid.revealed || bid.slashed then Slash
    else if b.winner.Some? && b.winner.value.bidder == bidder then WinnerRetain
    else Refund
  }

  /** A claim names the bidder's own account for a refund and the fee account for a slashed bond. The
      former must belong to the bidder; of the latter only the mint is checked. */
  datatype ClaimRequest = ClaimRequest(bidder: Key, own: Key, fee: Destination)

  predicate Exists(b: Book, d: Destination) {
    d.ToEscrow? || d.wallet in b.wallets
  }

  function ClaimRefusal(b: Book, q: ClaimRequest): Option<Error> {
    if q.bidder !in b.bids || Wallet(q.bidder, q.own) !in b.wallets || !Exists(b, q.fee) then Some(AccountMissing)
    else if b.phase != Settled && b.phase != Cancelled then Some(BidBookNotSettled)
    else if b.bids[q.bidder].refunded then Some(AlreadyRefunded)
    else if FateOf(b, q.bidder) != WinnerRetain && b.escrow < b.bids[q.bidder].bondPaid then Some(InsufficientFunds)
    else None
  }

  function PayOut(b: Book, to: Destination, amount: nat): Book
    requires Exists(b, to) && b.escrow >= amount
  {
    match to
    case ToEscrow => b
    case ToWallet(w) => b.(escrow := b.escrow - amount, wallets := b.wallets[w := b.wallets[w] + amount])
  }

  function AfterClaim(b: Book, q: ClaimRequest): Book {
    if ClaimRefusal(b, q).Some? then b
    else
      var bid, fate := b.bids[q.bidder], FateOf(b, q.bidder);
      var f := b.(bids := b.bids[q.bidder := bid.(refunded := true, slashed := bid.slashed || fate == Slash)]);
      match fate
      case WinnerRetain => f
      case Refund => PayOut(f, ToWallet(Wallet(q.bidder, q.own)), bid.bondPaid)
      case Slash => PayOut(f, q.fee, bid.bondPaid)
  }

  /** Closing the book's accounts asks for an empty escrow. */
  function CloseBookRefusal(b: Book): Option<Error> {
    if b.phase != Settled && b.phase != Cancelled then Some(BidBookNotSettled)
    else if b.escrow != 0 then Some(EscrowNotEmpty)
    else None
  }

  // ----- payments outside the program

  function TransferRefusal(b: Book, from: Wallet, to: Destination, amount: nat): Option<Error> {
    if from !in b.wallets || !Exists(b, to) then Some(AccountMissing)
    else if b.wallets[from] < amount then Some(InsufficientFunds)
    else None
  }

  /** The owner of a token account may send its tokens anywhere, into the escrow too. */
  function AfterTransfer(b: Book, from: Wallet, to: Destination, amount: nat): Book {
    if TransferRefusal(b, from, to, amount).Some? then b
    else
      var mid := b.wallets[from := b.wallets[from] - amount];
      match to
      case ToEscrow => b.(wallets := mid, escrow := b.escrow + amount)
      case ToWallet(w) => b.(wallets := mid[w := mid[w] + amount])
  }

  // ----- the account that the handlers update in place

  class BidBook {
    const commitStart: int
    const commitEnd: int
    const revealEnd: int
    const bondAmount: u64
    const paymentAmount: u64
    var phase: Phase
    var commitCount: nat
    var revealCount: nat
    var winner: Option<Winner>
    var bids: map<Key, Bid>
    var escrow: nat
    var wallets: map<Wallet, nat>

    function State(): Book
      reads this
    {
      Book(phase, commitStart, commitEnd, revealEnd, bondAmount, paymentAmount, commitCount, revealCount, winner,
           bids, escrow, wallets)
    }

    constructor Open(t: Task, commitSecs: int, revealSecs: int, bond: u64, now: int, wallets: map<Wallet, nat>,
                     leftover: map<Key, Bid>)
      ensures State() == Opened(t, commitSecs, revealSecs, bond, now, wallets, leftover)
    {
      commitStart, commitEnd, revealEnd := now, now + commitSecs, now + commitSecs + revealSecs;
      bondAmount, paymentAmount := bond, t.paymentAmount;
      phase, commitCount, revealCount, winner, bids, escrow := Commit, 0, 0, None, leftover, 0;
      this.wallets := wallets;
    }

    method CommitBid(q: CommitRequest, now: int) returns (r: Outcome)
      modifies this
      ensures r == Reply(CommitRefusal(old(State()), q, now))
      ensures State() == AfterCommit(old(State()), q, now)
    {
      if q.bidder in bids {
        return Err(AlreadyInUse);
      }
      var source := Wallet(q.bidder, q.source);
      if source !in wallets {
        return Err(AccountMissing);
      }
      if q.agent.operator != q.bidder {
        return Err(CallerNotOperator);
      }
      if q.agent.did != q.agentDid {
        return Err(AgentMismatch);
      }
      if !q.admitted {
        return Err(NotAdmitted);
      }
      if phase != Commit || now < commitStart || now >= commitEnd {
        return Err(PhaseClosed);
      }
      if commitCount >= MAX_BIDDERS_PER_TASK {
        return Err(TooManyBidders);
      }
      if wallets[source] < bondAmount {
        return Err(InsufficientFunds);
      }
      bids := bids[q.bidder := Bid(q.agentDid, q.commitHash, bondAmount, 0, false, false, false)];
      commitCount := commitCount + 1;
      if bondAmount > 0 {
        wallets := wallets[source := wallets[source] - bondAmount];
        escrow := escrow + bondAmount;
      }
      return Ok;
    }

    method RevealBid(hash: HashFn, bidder: Key, amount: u64, nonce: bytes32, now: int) returns (r: Outcome)
      modifies this
      ensures r == Reply(RevealRefusal(hash, old(State()), bidder, amount, nonce, now))
      ensures State() == AfterReveal(hash, old(State()), bidder, amount, nonce, now)
    {
      if bidder !in bids {
        return Err(AccountMissing);
      }
      if phase != Commit && phase != Reveal {
        return Err(PhaseClosed);
      }
      if now < commitEnd || now >= revealEnd {
        return Err(PhaseClosed);
      }
      var newPhase := if phase == Commit then Reveal else phase;
      var bid := bids[bidder];
      if bid.revealed || bid.slashed {
        return Err(WrongStatus);
      }
      if RevealCommitHash(hash, amount, nonce, bid.agentDid) != bid.commitHash {
        phase := newPhase;
        bids := bids[bidder := bid.(slashed := true)];
        return Ok;
      }
      if amount == 0 || amount > paymentAmount {
        return Err(InvalidAmount);
      }
      phase := newPhase;
      bids := bids[bidder := bid.(revealedAmount := amount, revealed := true)];
      revealCount := revealCount + 1;
      return Ok;
    }

    method CloseBidding(entries: seq<Entry>, now: int) returns (r: Outcome)
      modifies this
      ensures r == Reply(CloseRefusal(old(State()), entries, now))
      ensures State() == AfterClose(old(State()), entries, now)
    {
      if phase != Commit && phase != Reveal {
        return Err(PhaseClosed);
      }
      if now < revealEnd {
        return Err(PhaseClosed);
      }
      if |entries| != revealCount {
        return Err(IncompleteBidEnumeration);
      }
      var scan := ScanBids(bids, entries);
      if scan.Fault? {
        return Err(scan.error);
      }
      var leader := scan.best;
      if leader.Some? {
        phase := Settled;
        winner := Some(Winner(leader.value.agent, leader.value.bidder, leader.value.did, leader.value.amount));
      } else {
        phase := Cancelled;
        winner := None;
      }
      return Ok;
    }

    method ClaimBond(q: ClaimRequest) returns (r: Outcome)
      modifies this
      ensures r == Reply(ClaimRefusal(old(State()), q))
      ensures State() == AfterClaim(old(State()), q)
    {
      var own := Wallet(q.bidder, q.own);
      if q.bidder !in bids || own !in wallets || (q.fee.ToWallet? && q.fee.wallet !in wallets) {
        return Err(AccountMissing);
      }
      if phase != Settled && phase != Cancelled {
        return Err(BidBookNotSettled);
      }
      var bid := bids[q.bidder];
      if bid.refunded {
        return Err(AlreadyRefunded);
      }
      var fate := Refund;
      if phase == Settled {
        if !bid.revealed || bid.slashed {
          fate := Slash;
        } else if winner.Some? && winner.value.bidder == q.bidder {
          fate := WinnerRetain;
        }
      }
      if bid.bondPaid > 0 && fate != WinnerRetain {
        if escrow < bid.bondPaid {
          return Err(InsufficientFunds);
        }
        var destination := if fate == Refund then ToWallet(own) else q.fee;
        if destination.ToWallet? {
          escrow := escrow - bid.bondPaid;
          wallets := wallets[destination.wallet := wallets[destination.wallet] + bid.bondPaid];
        }
      }
      bids := bids[q.bidder := bid.(refunded := true, slashed := bid.slashed || fate == Slash)];
      return Ok;
    }

    /** The book ends here: what is left of it is only its answer. */
    method CloseBidBook() returns (r: Outcome)
      ensures r == Reply(CloseBookRefusal(State()))
    {
      if phase != Settled && phase != Cancelled {
        return Err(BidBookNotSettled);
      }
      if escrow != 0 {
        return Err(EscrowNotEmpty);
      }
      return Ok;
    }
  }

  method OpenBidding(paused: bool, t: Task, commitSecs: i64, revealSecs: i64, bondBps: u16, now: i64,
                     wallets: map<Wallet, nat>, leftover: map<Key, Bid>)
    returns (r: Outcome, book: BidBook?)
    ensures r == Reply(OpenRefusal(paused, t, commitSecs, revealSecs, bondBps, now))
    ensures r.Ok? <==> book != null
    ensures r.Ok? ==> fresh(book) && BondAmount(t.paymentAmount, bondBps) < U64_LIMIT
    ensures r.Ok? ==>
      book.State() == Opened(t, commitSecs, revealSecs, BondAmount(t.paymentAmount, bondBps), now, wallets, leftover)
  {
    book := null;
    if paused {
      return Err(Paused), null;
    }
    if !t.funded {
      return Err(WrongStatus), null;
    }
    if t.hasBook {
      return Err(BidBookAlreadyOpen), null;
    }
    if bondBps < MIN_BID_BOND_BPS || bondBps > MAX_BID_BOND_BPS {
      return Err(BondOutOfRange), null;
    }
    if commitSecs <= 0 || revealSecs <= 0 {
      return Err(WindowInvalid), null;
    }
    if !FitsI64(now + commitSecs) || !FitsI64(now + commitSecs + revealSecs) {
      return Err(ArithmeticOverflow), null;
    }
    if now + commitSecs + revealSecs > t.deadline {
      return Err(WindowInvalid), null;
    }
    var bond := BondAmount(t.paymentAmount, bondBps);
    if bond >= U64_LIMIT {
      return Err(ArithmeticOverflow), null;
    }
    book := new BidBook.Open(t, commitSecs, revealSecs, bond, now, wallets, leftover);
    return Ok, book;
  }

  /** The loop over the enumerated pairs. */
  method ScanBids(bids: map<Key, Bid>, entries: seq<Entry>) returns (r: Scan)
    ensures r == ScanEntries(bids, entries)
  {
    var leader: Option<Candidate> := None;
    var seen: set<Key> := {};
    for i := 0 to |entries|
      invariant ScanEntries(bids, entries[..i]) == Leader(leader)
      invariant forall key :: key in seen <==> exists k :: 0 <= k < i && entries[k].bidder == key
    {
      var e := entries[i];
      var refusal := CheckEntry(bids, entries, i, seen);
      assert entries[..i + 1][..i] == entries[..i];
      if refusal.Some? {
        ScanStops(bids, entries, i + 1);
        return Fault(refusal.value);
      }
      seen := seen + {e.bidder};
      var candidate := Candidate(bids[e.bidder].revealedAmount, e.agent.stake, e.agent.key, e.bidder, e.agent.did);
      if leader.None? || BidBeats(candidate, leader.value) {
        leader := Some(candidate);
      }
    }
    assert entries[..|entries|] == entries;
    return Leader(leader);
  }

  /** The checks on one pair; `seen` holds the bidders before it. */
  method CheckEntry(bids: map<Key, Bid>, entries: seq<Entry>, i: nat, seen: set<Key>) returns (r: Option<Error>)
    requires i < |entries|
    requires forall key :: key in seen <==> exists k :: 0 <= k < i && entries[k].bidder == key
    ensures r == EntryRefusal(bids, entries[..i], entries[i])
  {
    var e := entries[i];
    assert forall k :: 0 <= k < i ==> entries[..i][k] == entries[k];
    if e.bidder !in bids {
      return Some(AccountMissing);
    }
    if e.bidder in seen {
      assert exists k :: 0 <= k < |entries[..i]| && entries[..i][k].bidder == e.bidder;
      return Some(DuplicateBidEnumeration);
    }
    var bid := bids[e.bidder];
    if !bid.revealed || bid.slashed {
      return Some(InvalidBidInEnumeration);
    }
    if !e.ownedByRegistry {
      return Some(Unauthorized);
    }
    if e.agent.did != bid.agentDid {
      return Some(AgentMismatch);
    }
    return None;
  }

  function Reply(refusal: Option<Error>): Outcome {
    if refusal.Some? then Err(refusal.value) else Ok
  }

  lemma {:induction false} ScanStops(bids: map<Key, Bid>, entries: seq<Entry>, i: nat)
    requires i <= |entries|
    ensures ScanEntries(bids, entries[..i]).Fault? ==> ScanEntries(bids, entries) == ScanEntries(bids, entries[..i])
    decreases |entries|
  {
    if i < |entries| {
      var before := entries[..|entries| - 1];
      assert before[..i] == entries[..i];
      ScanStops(bids, before, i);
    } else {
      assert entries[..i] == entries;
    }
  }
}
