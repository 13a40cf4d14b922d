/** Where the bonds of an auction are at every moment, and where they end up. */
module AuctionBonds {
  import opened Wrappers
  import opened Bytes
  import opened Sums
  import opened AgentIdentity
  import opened Auction
  import opened AuctionProperties

  // ----- conservation

  ghost function Supply(b: Book): nat {
    b.escrow + Total(b.wallets)
  }

  lemma PayOutConserves(b: Book, to: Destination, amount: nat)
    requires Exists(b, to) && b.escrow >= amount
    ensures Supply(PayOut(b, to, amount)) == Supply(b)
  {
    if to.ToWallet? {
      TotalUpdate(b.wallets, to.wallet, b.wallets[to.wallet] + amount);
    }
  }

  lemma ClaimConserves(b: Book, q: ClaimRequest)
    ensures Supply(AfterClaim(b, q)) == Supply(b)
  {
    if ClaimRefusal(b, q).None? {
      var f := AfterClaim(b, q);
      var marked, amount := b.(bids := f.bids), b.bids[q.bidder].bondPaid;
      match FateOf(b, q.bidder)
      case WinnerRetain =>
      case Refund => PayOutConserves(marked, ToWallet(Wallet(q.bidder, q.own)), amount);
      case Slash => PayOutConserves(marked, q.fee, amount);
    }
  }

  lemma TransferConserves(b: Book, from: Wallet, to: Destination, amount: nat)
    ensures Supply(AfterTransfer(b, from, to, amount)) == Supply(b)
  {
    if TransferRefusal(b, from, to, amount).None? {
      var mid := b.wallets[from := b.wallets[from] - amount];
      match to
      case ToEscrow => TotalUpdate(b.wallets, from, b.wallets[from] - amount);
      case ToWallet(w) => TotalTransfer(b.wallets, mid, mid[w := mid[w] + amount], from, w, amount);
    }
  }

  lemma CommitConserves(b: Book, q: CommitRequest, now: int)
    ensures Supply(AfterCommit(b, q, now)) == Supply(b)
  {
    if CommitRefusal(b, q, now).None? {
      var source := Wallet(q.bidder, q.source);
      TotalUpdate(b.wallets, source, b.wallets[source] - b.bondAmount);
    }
  }

  /** No run creates or destroys tokens. */
  lemma {:induction false} SupplyConserved(hash: HashFn, b: Book, cs: seq<Command>)
    ensures Supply(Run(hash, b, cs)) == Supply(b)
  {
    if |cs| > 0 {
      var before, last := cs[..|cs| - 1], cs[|cs| - 1];
      SupplyConserved(hash, b, before);
      var m := Run(hash, b, before);
      match last
      case DoCommit(q, now) => CommitConserves(m, q, now);
      case DoReveal(bidder, amount, nonce, now) =>
      case DoClose(entries, now) =>
      case DoClaim(q) => ClaimConserves(m, q);
      case DoTransfer(from, to, paid) => TransferConserves(m, from, to, paid);
    }
  }

  // ----- what the escrow holds

  /** The escrow beyond one bond for each bond held. */
  function Extra(b: Book): int {
    b.escrow - b.bondAmount * BondsHeld(b)
  }

  /** What a command adds to that: an outside payment into the escrow, or a slashed bond whose claim
      names the escrow itself as the fee account. */
  function Into(b: Book, c: Command): nat {
    match c
    case DoTransfer(from, to, paid) => if TransferRefusal(b, from, to, paid).None? && to.ToEscrow? then paid else 0
    case DoClaim(q) =>
      if ClaimRefusal(b, q).None? && FateOf(b, q.bidder) == Slash && q.fee.ToEscrow? then b.bondAmount else 0
    case _ => 0
  }

  lemma TransferExtra(b: Book, from: Wallet, to: Destination, paid: nat)
    ensures Extra(AfterTransfer(b, from, to, paid)) == Extra(b) + Into(b, DoTransfer(from, to, paid))
  {
  }

  lemma ClaimExtra(b: Book, q: ClaimRequest)
    requires q.bidder in b.bids ==> b.bids[q.bidder].bondPaid == b.bondAmount
    requires ClaimRefusal(b, q).None? ==> HeldAfterClaim(b, q)
    ensures Extra(AfterClaim(b, q)) == Extra(b) + Into(b, DoClaim(q))
  {
    if ClaimRefusal(b, q).None? {
      ClaimFrame(b, q);
    }
  }

  lemma CloseExtra(reg: Registry, hash: HashFn, b: Book, entries: seq<Entry>, now: int)
    requires Inv(reg, hash, b)
    ensures Extra(AfterClose(b, entries, now)) == Extra(b)
  {
    if CloseRefusal(b, entries, now).None? {
      CloseKeepsInv(reg, hash, b, entries, now);
      var f := AfterClose(b, entries, now);
      if f.winner.Some? {
        assert BidOk(reg, hash, b, f.winner.value.bidder);
      }
    }
  }

  lemma CommitExtra(b: Book, q: CommitRequest, now: int)
    requires b.winner.None?
    ensures Extra(AfterCommit(b, q, now)) == Extra(b)
  {
    if CommitRefusal(b, q, now).None? {
      CommitBonds(b, q, now);
    }
  }

  lemma RevealExtra(hash: HashFn, b: Book, bidder: Key, amount: u64, nonce: bytes32, now: int)
    requires b.winner.None? && b.revealCount == |RevealedBidders(b.bids)|
    ensures Extra(AfterReveal(hash, b, bidder, amount, nonce, now)) == Extra(b)
  {
    if RevealRefusal(hash, b, bidder, amount, nonce, now).None? {
      RevealCounts(hash, b, bidder, amount, nonce, now);
    }
  }

  lemma ClaimStepExtra(reg: Registry, hash: HashFn, b: Book, q: ClaimRequest)
    requires Inv(reg, hash, b)
    ensures Extra(AfterClaim(b, q)) == Extra(b) + Into(b, DoClaim(q))
  {
    if q.bidder in b.bids {
      assert BidOk(reg, hash, b, q.bidder);
      ClaimBonds(b, q);
    }
    ClaimExtra(b, q);
  }

  lemma StepExtra(reg: Registry, hash: HashFn, b: Book, c: Command)
    requires Inv(reg, hash, b)
    ensures Extra(Apply(hash, b, c)) == Extra(b) + Into(b, c)
  {
    match c
    case DoCommit(q, now) =>
      if b.phase == Commit {
        CommitExtra(b, q, now);
      }
    case DoReveal(bidder, amount, nonce, now) =>
      if b.winner.None? {
        RevealExtra(hash, b, bidder, amount, nonce, now);
      }
    case DoClose(entries, now) => CloseExtra(reg, hash, b, entries, now);
    case DoClaim(q) => ClaimStepExtra(reg, hash, b, q);
    case DoTransfer(from, to, paid) => TransferExtra(b, from, to, paid);
  }

  function PaidIn(hash: HashFn, b: Book, cs: seq<Command>): nat {
    if |cs| == 0 then 0
    else
      var before := cs[..|cs| - 1];
      PaidIn(hash, b, before) + Into(Run(hash, b, before), cs[|cs| - 1])
  }

  /** At every moment of every run of a book opened without leftover bids the escrow holds exactly the
      bonds held, plus what was paid into it from outside or by naming it as fee account. So it holds
      exactly the bonds if and only if nothing was. */
  lemma {:induction false} EscrowExactly(reg: Registry, hash: HashFn, t: Task, commitSecs: int, revealSecs: int,
                                         bond: u64, now: int, wallets: map<Wallet, nat>, cs: seq<Command>)
    requires forall i :: 0 <= i < |cs| ==> Admissible(hash, reg, cs[i])
    ensures
      var b := Opened(t, commitSecs, revealSecs, bond, now, wallets, map[]);
      var f := Run(hash, b, cs);
      f.escrow == f.bondAmount * BondsHeld(f) + PaidIn(hash, b, cs)
  {
    var b := Opened(t, commitSecs, revealSecs, bond, now, wallets, map[]);
    if |cs| == 0 {
      assert Unrefunded(b.bids) == {};
    } else {
      var before := cs[..|cs| - 1];
      EscrowExactly(reg, hash, t, commitSecs, revealSecs, bond, now, wallets, before);
      InvAlways(reg, hash, t, commitSecs, revealSecs, bond, now, wallets, before);
      StepExtra(reg, hash, Run(hash, b, before), cs[|cs| - 1]);
    }
  }

  // ----- claims

  /** After the close every unclaimed bond can be claimed, once, whatever has been claimed before:
      the money is always there. In a settled auction exactly the claims of bidders who never opened
      their commitment are slashed and exactly the winner's bond is retained; in a cancelled one
      every bond is refunded, even after a wrong opening. */
  lemma BondsAlwaysClaimable(reg: Registry, hash: HashFn, b: Book, q: ClaimRequest)
    requires Inv(reg, hash, b) && (b.phase == Settled || b.phase == Cancelled)
    requires q.bidder in b.bids && Wallet(q.bidder, q.own) in b.wallets && Exists(b, q.fee)
    ensures ClaimRefusal(b, q).None? <==> !b.bids[q.bidder].refunded
    ensures b.phase == Settled ==>
      && (FateOf(b, q.bidder) == WinnerRetain <==> q.bidder == b.winner.value.bidder)
      && (FateOf(b, q.bidder) == Slash <==> q.bidder !in RevealedBidders(b.bids))
    ensures b.phase == Cancelled ==> FateOf(b, q.bidder) == Refund
    ensures ClaimRefusal(AfterClaim(b, q), q).Some?
  {
    ClaimKeepsInv(reg, hash, b, q);
    assert BidOk(reg, hash, b, q.bidder);
  }

  /** Once its bond is claimed, a bid of a settled auction is marked as slashed exactly when its
      commitment was never opened. */
  lemma ClaimMarks(reg: Registry, hash: HashFn, b: Book, q: ClaimRequest)
    requires Inv(reg, hash, b) && b.phase == Settled && ClaimRefusal(b, q).None?
    ensures q.bidder in AfterClaim(b, q).bids && AfterClaim(b, q).bids[q.bidder].refunded
    ensures AfterClaim(b, q).bids[q.bidder].slashed <==> q.bidder !in RevealedBidders(b.bids)
  {
    assert BidOk(reg, hash, b, q.bidder);
  }

  function HoldingsMap(wallets: map<Wallet, nat>, owner: Key): map<Wallet, nat> {
    map w | w in wallets && w.owner == owner :: wallets[w]
  }

  /** All that an owner has in its token accounts. */
  ghost function Holdings(wallets: map<Wallet, nat>, owner: Key): nat {
    Total(HoldingsMap(wallets, owner))
  }

  lemma HoldingsUpdate(wallets: map<Wallet, nat>, w: Wallet, v: nat, owner: Key)
    requires w in wallets
    ensures Holdings(wallets[w := v], owner) ==
      Holdings(wallets, owner) + if w.owner == owner then v - wallets[w] else 0
  {
    var before, after := HoldingsMap(wallets, owner), HoldingsMap(wallets[w := v], owner);
    if w.owner == owner {
      TotalUpdate(before, w, v);
      assert after == before[w := v];
    } else {
      assert after == before;
    }
  }

  lemma PayOutReaches(b: Book, to: Destination, amount: nat, owner: Key)
    requires Exists(b, to) && b.escrow >= amount
    ensures Holdings(PayOut(b, to, amount).wallets, owner) ==
      Holdings(b.wallets, owner) + if to.ToWallet? && to.wallet.owner == owner then amount else 0
  {
    if to.ToWallet? {
      HoldingsUpdate(b.wallets, to.wallet, b.wallets[to.wallet] + amount, owner);
    }
  }

  /** The fee account that a slashed claim names belongs to the bidder. */
  predicate FeeComesBack(q: ClaimRequest) {
    q.fee.ToWallet? && q.fee.wallet.owner == q.bidder
  }

  /** What an accepted claim brings its bidder: the bond for a refund, nothing for the winner, and for
      a slashed bid nothing or the bond, depending on the fee account it names. */
  lemma ClaimBrings(b: Book, q: ClaimRequest)
    requires ClaimRefusal(b, q).None?
    ensures Holdings(AfterClaim(b, q).wallets, q.bidder) ==
      Holdings(b.wallets, q.bidder) +
      match FateOf(b, q.bidder)
      case Refund => b.bids[q.bidder].bondPaid
      case WinnerRetain => 0
      case Slash => if FeeComesBack(q) then b.bids[q.bidder].bondPaid else 0
  {
    var marked, amount := b.(bids := AfterClaim(b, q).bids), b.bids[q.bidder].bondPaid;
    match FateOf(b, q.bidder)
    case WinnerRetain =>
    case Refund => PayOutReaches(marked, ToWallet(Wallet(q.bidder, q.own)), amount, q.bidder);
    case Slash => PayOutReaches(marked, q.fee, amount, q.bidder);
  }

  /** What a claim pays out of the escrow. */
  function PaidBond(b: Book, q: ClaimRequest): nat
    requires q.bidder in b.bids
  {
    if FateOf(b, q.bidder) == WinnerRetain then 0 else b.bids[q.bidder].bondPaid
  }

  /** Where a claim pays. */
  function PaidTo(b: Book, q: ClaimRequest): Destination
    requires q.bidder in b.bids
  {
    if FateOf(b, q.bidder) == Slash then q.fee else ToWallet(Wallet(q.bidder, q.own))
  }

  /** An accepted claim pays the bond from the escrow to the bidder's account for a refund and to the
      named fee account for a slashed bid, and a commit pays it from the named account of the bidder
      into the escrow; nothing else moves. */
  lemma BondsMoveExactly(b: Book, q: ClaimRequest, c: CommitRequest, now: int, w: Wallet)
    requires w in b.wallets
    ensures ClaimRefusal(b, q).None? ==>
      && w in AfterClaim(b, q).wallets
      && AfterClaim(b, q).wallets[w] == b.wallets[w] + if PaidTo(b, q) == ToWallet(w) then PaidBond(b, q) else 0
    ensures CommitRefusal(b, c, now).None? ==>
      && w in AfterCommit(b, c, now).wallets
      && AfterCommit(b, c, now).wallets[w] ==
           b.wallets[w] - if w == Wallet(c.bidder, c.source) then b.bondAmount else 0
  {
  }

  /** A slashed bond leaves its bidder if and only if the fee account named in the claim is not one
      of the bidder's own. */
  lemma SlashLeavesBidderExactly(reg: Registry, hash: HashFn, b: Book, q: ClaimRequest)
    requires Inv(reg, hash, b) && b.bondAmount > 0
    requires ClaimRefusal(b, q).None? && FateOf(b, q.bidder) == Slash
    ensures Holdings(AfterClaim(b, q).wallets, q.bidder) == Holdings(b.wallets, q.bidder) <==> !FeeComesBack(q)
  {
    assert BidOk(reg, hash, b, q.bidder);
    ClaimBrings(b, q);
  }

  /** The condition can fail: in a settled book a bidder who never opened its commitment can name
      another of its own token accounts, and then has its whole bond back. */
  lemma SlashedBondCanComeBack(reg: Registry, hash: HashFn, b: Book, bidder: Key, own: Key, other: Key)
    requires Inv(reg, hash, b) && b.phase == Settled
    requires bidder in b.bids && !b.bids[bidder].revealed && !b.bids[bidder].refunded
    requires Wallet(bidder, own) in b.wallets && Wallet(bidder, other) in b.wallets
    ensures
      var q := ClaimRequest(bidder, own, ToWallet(Wallet(bidder, other)));
      && ClaimRefusal(b, q).None? && FateOf(b, bidder) == Slash
      && Holdings(AfterClaim(b, q).wallets, bidder) == Holdings(b.wallets, bidder) + b.bondAmount
  {
    var q := ClaimRequest(bidder, own, ToWallet(Wallet(bidder, other)));
    BondsAlwaysClaimable(reg, hash, b, q);
    assert BidOk(reg, hash, b, bidder);
    ClaimBrings(b, q);
  }

  // ----- closing the book

  lemma MulZero(a: nat, n: nat)
    ensures a * n == 0 <==> a == 0 || n == 0
  {
  }

  /** Closing the accounts of a book is accepted exactly for a cancelled one whose bonds have all been
      claimed, or any finished one without bonds, if nothing else was paid into the escrow. */
  lemma BookClosesExactly(reg: Registry, hash: HashFn, b: Book)
    requires Inv(reg, hash, b)
    ensures CloseBookRefusal(b).None? <==>
      && Extra(b) == 0
      && (b.phase == Settled || b.phase == Cancelled)
      && (b.bondAmount == 0 || (b.phase == Cancelled && Unrefunded(b.bids) == {}))
  {
    MulZero(b.bondAmount, BondsHeld(b));
    if b.phase == Settled {
      SettledHoldsBond(b);
    }
  }

  lemma SettledHoldsBond(b: Book)
    requires b.winner.Some? && b.winner.value.bidder in b.bids
    ensures BondsHeld(b) >= 1
  {
    if !b.bids[b.winner.value.bidder].refunded {
      assert b.winner.value.bidder in Unrefunded(b.bids);
    }
  }

  /** In particular a settled book with bonds can never be closed, whatever is claimed or paid. */
  lemma SettledBookNeverCloses(reg: Registry, hash: HashFn, b: Book, cs: seq<Command>)
    requires Inv(reg, hash, b) && b.phase == Settled && b.bondAmount > 0
    requires forall i :: 0 <= i < |cs| ==> Admissible(hash, reg, cs[i])
    ensures CloseBookRefusal(Run(hash, b, cs)) == Some(EscrowNotEmpty)
  {
    RunKeepsInv(reg, hash, b, cs);
    RunKeepsBond(hash, b, cs);
    SettlementIsFinal(hash, b, cs);
    BookClosesExactly(reg, hash, Run(hash, b, cs));
  }

  lemma {:induction false} RunKeepsInv(reg: Registry, hash: HashFn, b: Book, cs: seq<Command>)
    requires Inv(reg, hash, b) && forall i :: 0 <= i < |cs| ==> Admissible(hash, reg, cs[i])
    ensures Inv(reg, hash, Run(hash, b, cs))
  {
    if |cs| > 0 {
      var before := cs[..|cs| - 1];
      RunKeepsInv(reg, hash, b, before);
      ApplyKeepsInv(reg, hash, Run(hash, b, before), cs[|cs| - 1]);
    }
  }

  lemma ApplyKeepsBond(hash: HashFn, b: Book, c: Command)
    ensures Apply(hash, b, c).bondAmount == b.bondAmount
  {
  }

  lemma {:induction false} RunKeepsBond(hash: HashFn, b: Book, cs: seq<Command>)
    ensures Run(hash, b, cs).bondAmount == b.bondAmount
  {
    if |cs| > 0 {
      var before := cs[..|cs| - 1];
      RunKeepsBond(hash, b, before);
      ApplyKeepsBond(hash, Run(hash, b, before), cs[|cs| - 1]);
    }
  }
}
