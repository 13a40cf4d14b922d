/** Claims about whole runs of the fee collector: any sequence of instructions, accepted or not, from
    its initialisation. */
module FeeHistory {
  import opened Wrappers
  import opened Bytes
  import opened Sums
  import opened MerkleClaims
  import opened FeeEpochs
  import opened FeeInvariants

  datatype Event = Event(now: i64, ins: Instruction)

  /** The accounts after initialisation: one epoch, open and empty, and shares of 100% in all. */
  ghost predicate Genesis(l: Ledger) {
    && l.config.nextEpochId == 1 && SharesOk(l.config.shares) && AllExist(l)
    && l.epochs.Keys == {0} && l.epochs[0] == FreshEpoch(l.epochs[0].startedAt)
  }

  function Run(hash: HashFn, l: Ledger, evs: seq<Event>): Ledger {
    if |evs| == 0 then l
    else
      var last := evs[|evs| - 1];
      Step(hash, Run(hash, l, evs[..|evs| - 1]), last.ins, last.now)
  }

  /** The state before event i. */
  function At(hash: HashFn, l: Ledger, evs: seq<Event>, i: nat): Ledger
    requires i <= |evs|
  {
    Run(hash, l, evs[..i])
  }

  predicate Accepted(hash: HashFn, l: Ledger, evs: seq<Event>, i: nat) {
    i < |evs| && Refusal(hash, At(hash, l, evs, i), evs[i].ins, evs[i].now).None?
  }

  lemma AtNext(hash: HashFn, l: Ledger, evs: seq<Event>, i: nat)
    requires i < |evs|
    ensures At(hash, l, evs, i + 1) == Step(hash, At(hash, l, evs, i), evs[i].ins, evs[i].now)
  {
    assert evs[..i + 1][..i] == evs[..i];
  }

  lemma AtEnd(hash: HashFn, l: Ledger, evs: seq<Event>)
    ensures At(hash, l, evs, |evs|) == Run(hash, l, evs)
  {
    assert evs[..|evs|] == evs;
  }

  /** In every reachable state epochs are numbered without gaps, only the last one is open, and the
      claim records of each add up to its claimed total, within its staker amount. */
  lemma {:induction false} BooksHold(hash: HashFn, l: Ledger, evs: seq<Event>)
    requires Genesis(l)
    ensures Inv(Run(hash, l, evs))
  {
    if |evs| == 0 {
      FreshOk(l.epochs[0].startedAt);
    } else {
      var before, last := evs[..|evs| - 1], evs[|evs| - 1];
      BooksHold(hash, l, before);
      StepKeepsInv(hash, Run(hash, l, before), last.ins, last.now);
    }
  }

  // ----- the vaults

  /** The sum over a run of what each event adds under some measure. */
  function Sum(hash: HashFn, l: Ledger, evs: seq<Event>, g: (Ledger, Instruction, i64) -> nat): nat {
    if |evs| == 0 then 0
    else
      var before, last := evs[..|evs| - 1], evs[|evs| - 1];
      Sum(hash, l, before, g) + g(Run(hash, l, before), last.ins, last.now)
  }

  function ExtraAt(hash: HashFn, at: Place): (Ledger, Instruction, i64) -> nat {
    (m: Ledger, ins: Instruction, now: i64) => Extra(hash, m, ins, now, at)
  }

  function Late(hash: HashFn): (Ledger, Instruction, i64) -> nat {
    (m: Ledger, ins: Instruction, now: i64) => LateBurn(hash, m, ins, now)
  }

  function WithoutTokens(hash: HashFn): (Ledger, Instruction, i64) -> nat {
    (m: Ledger, ins: Instruction, now: i64) => Unbacked(hash, m, ins, now)
  }

  function IntoClosed(hash: HashFn): (Ledger, Instruction, i64) -> nat {
    (m: Ledger, ins: Instruction, now: i64) => Stranded(hash, m, ins, now)
  }

  lemma NothingDueAtFirst(l: Ledger, due: Epoch -> nat)
    requires Genesis(l) && due(l.epochs[0]) == 0
    ensures Due(l.epochs, due) == 0
  {
    TotalRemove<u64>(DueMap(l.epochs, due), 0);
    assert DueMap(l.epochs, due) - {0} == map[];
  }

  /** On every run the staker vault holds exactly what the split, unswept epochs still owe their
      stakers, plus what it held at first and what was paid into it beside the books. */
  lemma {:induction false} StakerVaultExactly(hash: HashFn, l: Ledger, evs: seq<Event>)
    requires Genesis(l)
    ensures
      var f := Run(hash, l, evs);
      && StakerVault in f.tokens
      && f.tokens[StakerVault] ==
           Due(f.epochs, StakerDue) + l.tokens[StakerVault] + Sum(hash, l, evs, ExtraAt(hash, StakerVault))
  {
    if |evs| == 0 {
      NothingDueAtFirst(l, StakerDue);
    } else {
      var before, last := evs[..|evs| - 1], evs[|evs| - 1];
      StakerVaultExactly(hash, l, before);
      BooksHold(hash, l, before);
      StakerVaultStep(hash, Run(hash, l, before), last.ins, last.now);
    }
  }

  /** So on every run no claim is ever refused for lack of money in the vault, however many epochs pay
      from it and whatever has been swept. */
  lemma ClaimsNeverLackMoney(hash: HashFn, l: Ledger, evs: seq<Event>, q: ClaimRequest, now: i64)
    requires Genesis(l)
    ensures Refusal(hash, Run(hash, l, evs), Claims(q), now) != Some(InsufficientFunds)
  {
    StakerVaultExactly(hash, l, evs);
    var f := Run(hash, l, evs);
    if q.id in f.epochs {
      DueCovers(f.epochs, q.id, StakerDue);
    }
  }

  /** The burn vault holds exactly the burns that are due, plus what it held at first and what was paid
      into it beside the books, less the burns made after a sweep had already taken them back. */
  lemma {:induction false} BurnVaultExactly(hash: HashFn, l: Ledger, evs: seq<Event>)
    requires Genesis(l)
    ensures
      var f := Run(hash, l, evs);
      && BurnVault in f.tokens
      && f.tokens[BurnVault] ==
           Due(f.epochs, BurnDue) + l.tokens[BurnVault] + Sum(hash, l, evs, ExtraAt(hash, BurnVault))
           - Sum(hash, l, evs, Late(hash))
  {
    if |evs| == 0 {
      NothingDueAtFirst(l, BurnDue);
    } else {
      var before, last := evs[..|evs| - 1], evs[|evs| - 1];
      BurnVaultExactly(hash, l, before);
      BooksHold(hash, l, before);
      BurnVaultStep(hash, Run(hash, l, before), last.ins, last.now);
    }
  }

  /** Late burns have not taken more than was there or paid in beside the books. */
  ghost predicate LateBurnsCovered(hash: HashFn, l: Ledger, evs: seq<Event>)
    requires BurnVault in l.tokens
  {
    Sum(hash, l, evs, Late(hash)) <= l.tokens[BurnVault] + Sum(hash, l, evs, ExtraAt(hash, BurnVault))
  }

  /** The burn vault covers the burns that are due if and only if late burns have not taken more than
      was there or paid in beside the books. */
  lemma BurnsCoveredExactly(hash: HashFn, l: Ledger, evs: seq<Event>)
    requires Genesis(l)
    ensures BurnVault in Run(hash, l, evs).tokens
    ensures Run(hash, l, evs).tokens[BurnVault] >= Due(Run(hash, l, evs).epochs, BurnDue) <==>
      LateBurnsCovered(hash, l, evs)
  {
    BurnVaultExactly(hash, l, evs);
  }

  lemma CoveredSweep(l: Ledger, id: u64, now: i64)
    requires StakerVault in l.tokens && l.tokens[StakerVault] >= Due(l.epochs, StakerDue)
    requires BurnVault in l.tokens && l.tokens[BurnVault] >= Due(l.epochs, BurnDue)
    ensures SweepRefusal(l, id, now) != Some(InsufficientFunds)
  {
    if id in l.epochs {
      DueCovers(l.epochs, id, BurnDue);
      DueCovers(l.epochs, id, StakerDue);
    }
  }

  lemma CoveredBurn(l: Ledger, id: u64)
    requires BurnVault in l.tokens && l.tokens[BurnVault] >= Due(l.epochs, BurnDue)
    requires id in l.epochs && l.epochs[id].status != Stale
    ensures BurnRefusal(l, id) != Some(InsufficientFunds)
  {
    DueCovers(l.epochs, id, BurnDue);
  }

  /** Then no sweep lacks money ... */
  lemma CoveredSweepsGoThrough(hash: HashFn, l: Ledger, evs: seq<Event>, id: u64, now: i64)
    requires Genesis(l) && LateBurnsCovered(hash, l, evs)
    ensures SweepRefusal(Run(hash, l, evs), id, now) != Some(InsufficientFunds)
  {
    BurnsCoveredExactly(hash, l, evs);
    StakerVaultExactly(hash, l, evs);
    CoveredSweep(Run(hash, l, evs), id, now);
  }

  /** ... nor does a burn that is due. */
  lemma CoveredBurnsGoThrough(hash: HashFn, l: Ledger, evs: seq<Event>, id: u64)
    requires Genesis(l) && LateBurnsCovered(hash, l, evs)
    requires id in Run(hash, l, evs).epochs && Run(hash, l, evs).epochs[id].status != Stale
    ensures BurnRefusal(Run(hash, l, evs), id) != Some(InsufficientFunds)
  {
    BurnsCoveredExactly(hash, l, evs);
    CoveredBurn(Run(hash, l, evs), id);
  }

  /** The intake vault holds exactly what the open epoch has collected, plus what it held at first, what
      was paid into it beside the books and what sweeps credited to closed epochs, less what was
      recorded without tokens. */
  lemma {:induction false} IntakeExactly(hash: HashFn, l: Ledger, evs: seq<Event>)
    requires Genesis(l)
    ensures
      var f := Run(hash, l, evs);
      && Intake in f.tokens
      && f.tokens[Intake] ==
           Due(f.epochs, SplitDue) + l.tokens[Intake] + Sum(hash, l, evs, ExtraAt(hash, Intake))
           + Sum(hash, l, evs, IntoClosed(hash)) - Sum(hash, l, evs, WithoutTokens(hash))
  {
    if |evs| == 0 {
      NothingDueAtFirst(l, SplitDue);
    } else {
      var before, last := evs[..|evs| - 1], evs[|evs| - 1];
      IntakeExactly(hash, l, before);
      BooksHold(hash, l, before);
      IntakeStep(hash, Run(hash, l, before), last.ins, last.now);
    }
  }

  /** As long as no more has been recorded without tokens than is there beside the books, no split
      lacks money. */
  lemma BackedSplitsGoThrough(hash: HashFn, l: Ledger, evs: seq<Event>, id: u64, now: i64)
    requires Genesis(l)
    requires Sum(hash, l, evs, WithoutTokens(hash)) <=
      l.tokens[Intake] + Sum(hash, l, evs, ExtraAt(hash, Intake)) + Sum(hash, l, evs, IntoClosed(hash))
    ensures Refusal(hash, Run(hash, l, evs), Process(id), now) != Some(InsufficientFunds)
  {
    IntakeExactly(hash, l, evs);
    BooksHold(hash, l, evs);
    var f := Run(hash, l, evs);
    if id in f.epochs && f.epochs[id].status == Open {
      DueCovers(f.epochs, id, SplitDue);
      SplitIsWhole(f.config, f.epochs[id].totalCollected);
      SplitAffordable(f.tokens, f.config, SplitOf(f.config, f.epochs[id].totalCollected));
    }
  }

  // ----- the life of an epoch

  function Rank(s: Status): nat {
    match s
    case Open => 0
    case Splitting => 1
    case DistributionCommitted => 2
    case Stale => 3
  }

  /** `f` is `e`, at the same or a later point of its life. */
  ghost predicate LaterEpoch(e: Epoch, f: Epoch) {
    && Rank(e.status) <= Rank(f.status)
    && (e.status != Open ==>
          f.closedAt == e.closedAt && f.stakerAmount == e.stakerAmount && f.burnAmount == e.burnAmount)
    && (e.status != Open && e.status != Splitting ==> f.root == e.root)
    && (e.burnExecuted ==> f.burnExecuted)
    && forall k :: k in e.claims ==> k in f.claims && f.claims[k] == e.claims[k]
  }

  ghost predicate LaterLedger(l: Ledger, f: Ledger) {
    && f.config.claimWindow == l.config.claimWindow
    && forall id :: id in l.epochs ==> id in f.epochs && LaterEpoch(l.epochs[id], f.epochs[id])
  }

  lemma ProcessAgesEpoch(l: Ledger, id: u64, now: i64, x: u64)
    requires ProcessRefusal(l, id, now).None? && x in l.epochs && EpochOk(l.epochs[x])
    ensures x in ProcessEffect(l, id, now).epochs && LaterEpoch(l.epochs[x], ProcessEffect(l, id, now).epochs[x])
  {
  }

  lemma SweepAgesEpoch(l: Ledger, id: u64, now: i64, x: u64)
    requires SweepRefusal(l, id, now).None? && x in l.epochs
    ensures x in SweepEffect(l, id, now).epochs && LaterEpoch(l.epochs[x], SweepEffect(l, id, now).epochs[x])
  {
  }

  lemma StepAgesEpoch(hash: HashFn, l: Ledger, ins: Instruction, now: i64, id: u64)
    requires Inv(l) && id in l.epochs
    ensures id in Step(hash, l, ins, now).epochs && LaterEpoch(l.epochs[id], Step(hash, l, ins, now).epochs[id])
  {
    if Refusal(hash, l, ins, now).None? {
      match ins
      case Process(x) =>
        assert EpochOk(l.epochs[id]);
        ProcessAgesEpoch(l, x, now, id);
      case Sweep(x) => SweepAgesEpoch(l, x, now, id);
      case _ =>
    }
  }

  lemma StepKeepsWindow(hash: HashFn, l: Ledger, ins: Instruction, now: i64)
    ensures Step(hash, l, ins, now).config.claimWindow == l.config.claimWindow
  {
  }

  lemma StepIsLater(hash: HashFn, l: Ledger, ins: Instruction, now: i64)
    requires Inv(l)
    ensures LaterLedger(l, Step(hash, l, ins, now))
  {
    StepKeepsWindow(hash, l, ins, now);
    forall id | id in l.epochs
      ensures id in Step(hash, l, ins, now).epochs && LaterEpoch(l.epochs[id], Step(hash, l, ins, now).epochs[id])
    {
      StepAgesEpoch(hash, l, ins, now, id);
    }
  }

  lemma LaterTransitive(l: Ledger, m: Ledger, f: Ledger)
    requires LaterLedger(l, m) && LaterLedger(m, f)
    ensures LaterLedger(l, f)
  {
    forall id | id in l.epochs
      ensures id in f.epochs && LaterEpoch(l.epochs[id], f.epochs[id])
    {
      assert LaterEpoch(l.epochs[id], m.epochs[id]) && LaterEpoch(m.epochs[id], f.epochs[id]);
    }
  }

  /** Along a run an epoch only moves forward; its amounts and closing time are fixed by the split, its
      root by the commit, and claim records stay. */
  lemma {:induction false} RunIsLater(hash: HashFn, l: Ledger, evs: seq<Event>, i: nat, j: nat)
    requires Genesis(l) && i <= j <= |evs|
    ensures LaterLedger(At(hash, l, evs, i), At(hash, l, evs, j))
    decreases j
  {
    if i < j {
      RunIsLater(hash, l, evs, i, j - 1);
      AtNext(hash, l, evs, j - 1);
      var m := At(hash, l, evs, j - 1);
      BooksHold(hash, l, evs[..j - 1]);
      StepIsLater(hash, m, evs[j - 1].ins, evs[j - 1].now);
      LaterTransitive(At(hash, l, evs, i), m, At(hash, l, evs, j));
    }
  }

  /** The steps in an epoch's life, and the burn. */
  predicate LifeStep(ins: Instruction, id: u64) {
    match ins
    case Process(x) => x == id
    case Commit(x, _, _) => x == id
    case Burn(x) => x == id
    case Sweep(x) => x == id
    case _ => false
  }

  predicate SameKind(a: Instruction, b: Instruction) {
    (a.Process? && b.Process?) || (a.Commit? && b.Commit?) || (a.Burn? && b.Burn?) || (a.Sweep? && b.Sweep?)
  }

  lemma LifeStepDone(hash: HashFn, l: Ledger, ins: Instruction, now: i64, id: u64)
    requires Inv(l) && LifeStep(ins, id) && Refusal(hash, l, ins, now).None?
    ensures id in Step(hash, l, ins, now).epochs
    ensures
      var e := Step(hash, l, ins, now).epochs[id];
      match ins
      case Process(_) => e.status == Splitting
      case Commit(_, _, _) => e.status == DistributionCommitted
      case Burn(_) => e.burnExecuted
      case Sweep(_) => e.status == Stale
      case _ => false
  {
  }

  lemma NotAgain(hash: HashFn, l: Ledger, evs: seq<Event>, i: nat, j: nat, id: u64)
    requires Genesis(l) && i < j && Accepted(hash, l, evs, i) && Accepted(hash, l, evs, j)
    requires LifeStep(evs[i].ins, id) && LifeStep(evs[j].ins, id)
    ensures !SameKind(evs[i].ins, evs[j].ins)
  {
    BooksHold(hash, l, evs[..i]);
    LifeStepDone(hash, At(hash, l, evs, i), evs[i].ins, evs[i].now, id);
    AtNext(hash, l, evs, i);
    RunIsLater(hash, l, evs, i + 1, j);
    assert LaterEpoch(At(hash, l, evs, i + 1).epochs[id], At(hash, l, evs, j).epochs[id]);
  }

  /** Each epoch is split, committed, burned and swept at most once. */
  lemma LifeStepsOnce(hash: HashFn, l: Ledger, evs: seq<Event>, i: nat, j: nat, id: u64)
    requires Genesis(l) && Accepted(hash, l, evs, i) && Accepted(hash, l, evs, j)
    requires LifeStep(evs[i].ins, id) && LifeStep(evs[j].ins, id) && SameKind(evs[i].ins, evs[j].ins)
    ensures i == j
  {
    if i < j {
      NotAgain(hash, l, evs, i, j, id);
    } else if j < i {
      NotAgain(hash, l, evs, j, i, id);
    }
  }

  // ----- who was paid

  /** Event i of a run paid `staker` for an epoch. */
  ghost predicate PaidBy(hash: HashFn, l: Ledger, evs: seq<Event>, id: u64, staker: Key, i: nat) {
    && Accepted(hash, l, evs, i) && evs[i].ins.Claims?
    && evs[i].ins.claim.id == id && evs[i].ins.claim.staker == staker
  }

  ghost predicate HasRecord(l: Ledger, id: u64, staker: Key) {
    id in l.epochs && staker in l.epochs[id].claims
  }

  lemma PaidIsRecorded(hash: HashFn, l: Ledger, evs: seq<Event>, id: u64, staker: Key, i: nat, j: nat)
    requires Genesis(l) && PaidBy(hash, l, evs, id, staker, i) && i < j <= |evs|
    ensures HasRecord(At(hash, l, evs, j), id, staker)
  {
    AtNext(hash, l, evs, i);
    RunIsLater(hash, l, evs, i + 1, j);
    assert LaterEpoch(At(hash, l, evs, i + 1).epochs[id], At(hash, l, evs, j).epochs[id]);
  }

  /** Each staker is paid at most once for an epoch. */
  lemma PaidAtMostOnce(hash: HashFn, l: Ledger, evs: seq<Event>, id: u64, staker: Key, i: nat, j: nat)
    requires Genesis(l) && PaidBy(hash, l, evs, id, staker, i) && PaidBy(hash, l, evs, id, staker, j)
    ensures i == j
  {
    if i < j {
      PaidIsRecorded(hash, l, evs, id, staker, i, j);
    } else if j < i {
      PaidIsRecorded(hash, l, evs, id, staker, j, i);
    }
  }

  lemma NewRecordIsPaid(hash: HashFn, l: Ledger, ins: Instruction, now: i64, id: u64, staker: Key)
    requires Inv(l) && HasRecord(Step(hash, l, ins, now), id, staker)
    ensures
      var f := Step(hash, l, ins, now);
      if HasRecord(l, id, staker) then f.epochs[id].claims[staker] == l.epochs[id].claims[staker]
      else
        && Refusal(hash, l, ins, now).None? && ins.Claims?
        && ins.claim.id == id && ins.claim.staker == staker
        && f.epochs[id].claims[staker] == ins.claim.amount
  {
  }

  /** Every claim record was paid by one request of the run, of that amount. */
  lemma {:induction false} RecordedClaimWasPaid(hash: HashFn, l: Ledger, evs: seq<Event>, j: nat, id: u64, staker: Key)
    returns (i: nat)
    requires Genesis(l) && j <= |evs| && HasRecord(At(hash, l, evs, j), id, staker)
    ensures i < j && PaidBy(hash, l, evs, id, staker, i)
    ensures evs[i].ins.claim.amount == At(hash, l, evs, j).epochs[id].claims[staker]
    decreases j
  {
    AtNext(hash, l, evs, j - 1);
    BooksHold(hash, l, evs[..j - 1]);
    NewRecordIsPaid(hash, At(hash, l, evs, j - 1), evs[j - 1].ins, evs[j - 1].now, id, staker);
    if HasRecord(At(hash, l, evs, j - 1), id, staker) {
      i := RecordedClaimWasPaid(hash, l, evs, j - 1, id, staker);
    } else {
      i := j - 1;
    }
  }

  /** End to end: if the root that an epoch ends up with is that of a tree over `claims`, whoever has
      been paid `amount` for it is owed exactly that by one of those claims, or a request of the run
      carries a collision. */
  lemma OnlyCommittedClaimsPaid(hash: HashFn, l: Ledger, evs: seq<Event>, id: u64, t: Tree,
                                claims: seq<MerkleClaims.Claim>, staker: Key)
    returns (i: nat)
    requires Genesis(l) && HasRecord(Run(hash, l, evs), id, staker)
    requires Run(hash, l, evs).epochs[id].root == Root(hash, t) && ClaimTree(t, id, claims)
    ensures i < |evs| && evs[i].ins.Claims?
    ensures
      var amount, q := Run(hash, l, evs).epochs[id].claims[staker], evs[i].ins.claim;
      var (x, y) := ExtractCollision(hash, t, ClaimPreimage(q.staker, q.amount, id), q.proof);
      (amount < U64_LIMIT && MerkleClaims.Claim(staker, amount) in claims) || Collision(hash, x, y)
  {
    AtEnd(hash, l, evs);
    i := RecordedClaimWasPaid(hash, l, evs, |evs|, id, staker);
    RunIsLater(hash, l, evs, i, |evs|);
    assert LaterEpoch(At(hash, l, evs, i).epochs[id], Run(hash, l, evs).epochs[id]);
    var q := evs[i].ins.claim;
    ClaimSound(hash, t, id, claims, q.staker, q.amount, id, q.proof);
  }

  /** What a claim has to meet apart from its proof. */
  predicate Claimable(l: Ledger, q: ClaimRequest, now: i64) {
    && q.id in l.epochs && q.destination in l.tokens
    && var e := l.epochs[q.id];
       && e.status == DistributionCommitted && q.staker !in e.claims
       && |q.proof| <= 24
       && FitsI64(e.closedAt + l.config.claimWindow) && now < e.closedAt + l.config.claimWindow
       && e.claimedTotal + q.amount <= e.stakerAmount
  }

  lemma ProvedClaimAccepted(hash: HashFn, l: Ledger, q: ClaimRequest, now: i64)
    requires StakerVault in l.tokens && q.id in l.epochs && ProofReaches(hash, l.epochs[q.id].root, q)
    ensures ClaimRefusal(hash, l, q, now).None? <==> Claimable(l, q, now) && q.amount <= l.tokens[StakerVault]
  {
  }

  /** Conversely, on every run a claim with the sibling path of its own leaf is paid exactly when it is
      the first of its staker for a committed epoch, in time, not too deep and within the epoch's
      staker amount. */
  lemma HonestClaimAccepted(hash: HashFn, l: Ledger, evs: seq<Event>, t: Tree, path: Path, q: ClaimRequest, now: i64)
    requires Genesis(l)
    requires q.id in Run(hash, l, evs).epochs && Run(hash, l, evs).epochs[q.id].root == Root(hash, t)
    requires PathTo(t, path, ClaimPreimage(q.staker, q.amount, q.id)) && q.proof == SiblingPath(hash, t, path)
    ensures Refusal(hash, Run(hash, l, evs), Claims(q), now).None? <==> Claimable(Run(hash, l, evs), q, now)
  {
    HonestProofReaches(hash, t, path, q);
    ClaimableHasMoney(hash, l, evs, q, now);
    ProvedClaimAccepted(hash, Run(hash, l, evs), q, now);
  }

  lemma HonestProofReaches(hash: HashFn, t: Tree, path: Path, q: ClaimRequest)
    requires PathTo(t, path, ClaimPreimage(q.staker, q.amount, q.id)) && q.proof == SiblingPath(hash, t, path)
    ensures ProofReaches(hash, Root(hash, t), q)
  {
    Complete(hash, t, path, ClaimPreimage(q.staker, q.amount, q.id));
  }

  lemma ClaimableHasMoney(hash: HashFn, l: Ledger, evs: seq<Event>, q: ClaimRequest, now: i64)
    requires Genesis(l)
    ensures StakerVault in Run(hash, l, evs).tokens
    ensures Claimable(Run(hash, l, evs), q, now) ==> q.amount <= Run(hash, l, evs).tokens[StakerVault]
  {
    var f := Run(hash, l, evs);
    StakerVaultExactly(hash, l, evs);
    if Claimable(f, q, now) {
      DueCovers(f.epochs, q.id, StakerDue);
    }
  }

  // ----- sweeping

  lemma StaysSwept(hash: HashFn, l: Ledger, evs: seq<Event>, i: nat, j: nat, id: u64)
    requires Genesis(l) && i < j <= |evs| && Accepted(hash, l, evs, i) && evs[i].ins == Sweep(id)
    ensures id in At(hash, l, evs, j).epochs && At(hash, l, evs, j).epochs[id].status == Stale
  {
    BooksHold(hash, l, evs[..i]);
    LifeStepDone(hash, At(hash, l, evs, i), evs[i].ins, evs[i].now, id);
    AtNext(hash, l, evs, i);
    RunIsLater(hash, l, evs, i + 1, j);
    assert LaterEpoch(At(hash, l, evs, i + 1).epochs[id], At(hash, l, evs, j).epochs[id]);
  }

  lemma NoClaimAfterSweep(hash: HashFn, l: Ledger, evs: seq<Event>, i: nat, j: nat, id: u64)
    requires Genesis(l) && i < j < |evs|
    requires Accepted(hash, l, evs, i) && evs[i].ins == Sweep(id)
    requires evs[j].ins.Claims? && evs[j].ins.claim.id == id
    ensures !Accepted(hash, l, evs, j)
  {
    StaysSwept(hash, l, evs, i, j, id);
  }

  lemma ClaimThenSweep(hash: HashFn, m: Ledger, q: ClaimRequest, claimedAt: i64, f: Ledger, sweptAt: i64)
    requires ClaimRefusal(hash, m, q, claimedAt).None? && SweepRefusal(f, q.id, sweptAt).None?
    requires f.config.claimWindow == m.config.claimWindow && f.epochs[q.id].closedAt == m.epochs[q.id].closedAt
    ensures claimedAt + SWEEP_GRACE_SECS < sweptAt
  {
  }

  /** Every claim on a swept epoch came at least the grace period before the sweep: a sweep never takes
      what could still be claimed. */
  lemma SweepWaitsForClaims(hash: HashFn, l: Ledger, evs: seq<Event>, i: nat, j: nat, id: u64)
    requires Genesis(l)
    requires Accepted(hash, l, evs, i) && evs[i].ins == Sweep(id)
    requires Accepted(hash, l, evs, j) && evs[j].ins.Claims? && evs[j].ins.claim.id == id
    ensures j < i && evs[j].now + SWEEP_GRACE_SECS < evs[i].now
  {
    if j < i {
      RunIsLater(hash, l, evs, j, i);
      var m, f := At(hash, l, evs, j), At(hash, l, evs, i);
      assert LaterEpoch(m.epochs[id], f.epochs[id]);
      ClaimThenSweep(hash, m, evs[j].ins.claim, evs[j].now, f, evs[i].now);
    } else if i < j {
      NoClaimAfterSweep(hash, l, evs, i, j, id);
    }
  }

  lemma SweptInto(l: Ledger, id: u64, now: i64)
    requires OneOpen(l) && SweepRefusal(l, id, now).None?
    ensures id + 1 < U64_LIMIT && id + 1 in l.epochs
    ensures l.epochs[id + 1].status == Open <==> id + 2 == l.config.nextEpochId
  {
  }

  /** What a sweep takes back is credited to an epoch that is still to be split if and only if the next
      epoch is the newest one. */
  lemma SweepReachesSplitExactly(hash: HashFn, l: Ledger, evs: seq<Event>, i: nat, id: u64)
    requires Genesis(l) && Accepted(hash, l, evs, i) && evs[i].ins == Sweep(id)
    ensures id + 1 < U64_LIMIT && id + 1 in At(hash, l, evs, i).epochs
    ensures At(hash, l, evs, i).epochs[id + 1].status == Open <==> id + 2 == At(hash, l, evs, i).config.nextEpochId
  {
    BooksHold(hash, l, evs[..i]);
    SweptInto(At(hash, l, evs, i), id, evs[i].now);
  }

  /** Otherwise it is never split: an epoch that is no longer open is never processed again. */
  lemma ClosedNeverSplit(hash: HashFn, l: Ledger, evs: seq<Event>, i: nat, j: nat, id: u64)
    requires Genesis(l) && i <= j < |evs| && id in At(hash, l, evs, i).epochs
    requires At(hash, l, evs, i).epochs[id].status != Open && evs[j].ins == Process(id)
    ensures !Accepted(hash, l, evs, j)
  {
    RunIsLater(hash, l, evs, i, j);
    assert LaterEpoch(At(hash, l, evs, i).epochs[id], At(hash, l, evs, j).epochs[id]);
  }
}
