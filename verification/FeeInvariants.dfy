/** What every instruction of the fee collector keeps: epochs are numbered without gaps and only the
    last is open, claim records agree with the totals, and each vault differs from what is due out of
    it by exactly what is paid in or taken out beside the books. */
module FeeInvariants {
  import opened Wrappers
  import opened Bytes
  import opened Sums
  import opened FeeEpochs

  // ----- epochs

  ghost predicate EpochOk(e: Epoch) {
    && e.claimedTotal == Total<Key>(e.claims) <= e.stakerAmount
    && (e.status == Open ==> e.stakerAmount == 0 && e.burnAmount == 0 && !e.burnExecuted)
    && (e.status == Open || e.status == Splitting ==> !e.committed && e.claims == map[])
    && (e.status == DistributionCommitted ==> e.committed)
    && (e.swept <==> e.status == Stale)
  }

  ghost predicate Numbered(l: Ledger) {
    && l.config.nextEpochId >= 1
    && forall id: u64 :: id in l.epochs <==> id < l.config.nextEpochId
  }

  ghost predicate OneOpen(l: Ledger) {
    forall id :: id in l.epochs ==> (l.epochs[id].status == Open <==> id == l.config.nextEpochId - 1)
  }

  ghost predicate SharesOk(s: Shares) {
    s.burn as int + s.staker + s.grant + s.treasury == Fees.BPS_DENOM
  }

  ghost predicate EpochsOk(l: Ledger) {
    forall id :: id in l.epochs ==> EpochOk(l.epochs[id])
  }

  ghost predicate Inv(l: Ledger) {
    Numbered(l) && OneOpen(l) && EpochsOk(l) && SharesOk(l.config.shares) && AllExist(l)
  }

  lemma FreshOk(now: i64)
    ensures EpochOk(FreshEpoch(now))
  {
  }

  lemma ClaimKeepsOk(e: Epoch, staker: Key, amount: u64)
    requires EpochOk(e) && e.status == DistributionCommitted && staker !in e.claims
    requires e.claimedTotal + amount <= e.stakerAmount
    ensures EpochOk(e.(claimedTotal := e.claimedTotal + amount, claims := e.claims[staker := amount]))
  {
    TotalInsert<Key>(e.claims, staker, amount);
  }

  lemma SendKeys(tokens: map<Place, nat>, c: Config, s: Fees.Split)
    requires VaultsExist(tokens) && c.grantTo in tokens && c.treasuryTo in tokens
    ensures SendSplit(tokens, c, s).Some? ==> SendSplit(tokens, c, s).value.Keys == tokens.Keys
  {
  }

  lemma ProcessKeepsOk(l: Ledger, id: u64, now: i64)
    requires ProcessRefusal(l, id, now).None? && EpochsOk(l)
    ensures EpochsOk(ProcessEffect(l, id, now))
  {
    FreshOk(now);
    assert EpochOk(l.epochs[id]);
  }

  lemma SweepKeepsOk(l: Ledger, id: u64, now: i64)
    requires SweepRefusal(l, id, now).None? && EpochsOk(l)
    ensures EpochsOk(SweepEffect(l, id, now))
  {
    assert EpochOk(l.epochs[id]) && EpochOk(l.epochs[id + 1]);
  }

  lemma StepKeepsEpochs(hash: HashFn, l: Ledger, ins: Instruction, now: i64)
    requires EpochsOk(l)
    ensures EpochsOk(Step(hash, l, ins, now))
  {
    if Refusal(hash, l, ins, now).None? {
      match ins
      case Process(id) => ProcessKeepsOk(l, id, now);
      case Sweep(id) => SweepKeepsOk(l, id, now);
      case Claims(q) => ClaimKeepsOk(l.epochs[q.id], q.staker, q.amount);
      case _ =>
    }
  }

  lemma ProcessKeepsNumbers(l: Ledger, id: u64, now: i64)
    requires Numbered(l) && OneOpen(l) && ProcessRefusal(l, id, now).None?
    ensures Numbered(ProcessEffect(l, id, now)) && OneOpen(ProcessEffect(l, id, now))
  {
    assert id == l.config.nextEpochId - 1;
  }

  lemma SweepKeepsNumbers(l: Ledger, id: u64, now: i64)
    requires Numbered(l) && OneOpen(l) && SweepRefusal(l, id, now).None?
    ensures Numbered(SweepEffect(l, id, now)) && OneOpen(SweepEffect(l, id, now))
  {
  }

  lemma StepKeepsNumbers(hash: HashFn, l: Ledger, ins: Instruction, now: i64)
    requires Numbered(l) && OneOpen(l)
    ensures Numbered(Step(hash, l, ins, now)) && OneOpen(Step(hash, l, ins, now))
  {
    if Refusal(hash, l, ins, now).None? {
      match ins
      case Process(id) => ProcessKeepsNumbers(l, id, now);
      case Sweep(id) => SweepKeepsNumbers(l, id, now);
      case _ =>
    }
  }

  lemma StepKeepsAccounts(hash: HashFn, l: Ledger, ins: Instruction, now: i64)
    requires SharesOk(l.config.shares) && AllExist(l)
    ensures SharesOk(Step(hash, l, ins, now).config.shares) && AllExist(Step(hash, l, ins, now))
  {
    if ins.Process? && ins.id in l.epochs {
      SendKeys(l.tokens, l.config, SplitOf(l.config, l.epochs[ins.id].totalCollected));
    }
  }

  /** The invariant, kept by every instruction, accepted or not. */
  lemma StepKeepsInv(hash: HashFn, l: Ledger, ins: Instruction, now: i64)
    requires Inv(l)
    ensures Inv(Step(hash, l, ins, now))
  {
    StepKeepsEpochs(hash, l, ins, now);
    StepKeepsNumbers(hash, l, ins, now);
    StepKeepsAccounts(hash, l, ins, now);
  }

  // ----- what is due out of a vault

  function StakerDue(e: Epoch): nat {
    if e.status == Splitting || e.status == DistributionCommitted then StakerResidual(e) else 0
  }

  function BurnDue(e: Epoch): nat {
    if e.status == Splitting || e.status == DistributionCommitted then BurnResidual(e) else 0
  }

  function SplitDue(e: Epoch): nat {
    if e.status == Open then e.totalCollected else 0
  }

  function DueMap(epochs: map<u64, Epoch>, due: Epoch -> nat): map<u64, nat> {
    map id | id in epochs :: due(epochs[id])
  }

  ghost function Due(epochs: map<u64, Epoch>, due: Epoch -> nat): nat {
    Total<u64>(DueMap(epochs, due))
  }

  lemma DueUpdate(epochs: map<u64, Epoch>, id: u64, e: Epoch, due: Epoch -> nat)
    requires id in epochs
    ensures Due(epochs[id := e], due) + due(epochs[id]) == Due(epochs, due) + due(e)
  {
    TotalUpdate<u64>(DueMap(epochs, due), id, due(e));
    assert DueMap(epochs[id := e], due) == DueMap(epochs, due)[id := due(e)];
  }

  lemma DueInsert(epochs: map<u64, Epoch>, id: u64, e: Epoch, due: Epoch -> nat)
    requires id !in epochs
    ensures Due(epochs[id := e], due) == Due(epochs, due) + due(e)
  {
    TotalInsert<u64>(DueMap(epochs, due), id, due(e));
    assert DueMap(epochs[id := e], due) == DueMap(epochs, due)[id := due(e)];
  }

  lemma DueCovers(epochs: map<u64, Epoch>, id: u64, due: Epoch -> nat)
    requires id in epochs
    ensures due(epochs[id]) <= Due(epochs, due)
  {
    TotalRemove<u64>(DueMap(epochs, due), id);
  }

  ghost function Surplus(l: Ledger, at: Place, due: Epoch -> nat): int
    requires at in l.tokens
  {
    l.tokens[at] - Due(l.epochs, due)
  }

  // ----- what an accepted instruction brings beside the books

  function If(c: bool, amount: nat): nat {
    if c then amount else 0
  }

  /** Tokens that land at a place without being booked there: outside payments, and grant, treasury and
      claim payments that name the place. */
  function Extra(hash: HashFn, l: Ledger, ins: Instruction, now: i64, at: Place): nat {
    if Refusal(hash, l, ins, now).Some? then 0
    else
      match ins
      case Process(id) =>
        var s := SplitOf(l.config, l.epochs[id].totalCollected);
        If(l.config.grantTo == at, s.grant) + If(l.config.treasuryTo == at, s.treasury)
      case Claims(q) => If(q.destination == at, q.amount)
      case Pays(_, to, sum) => If(to == at, sum)
      case _ => 0
  }

  /** A burn after the sweep that already took the burn share back. */
  function LateBurn(hash: HashFn, l: Ledger, ins: Instruction, now: i64): nat {
    if ins.Burn? && Refusal(hash, l, ins, now).None? && l.epochs[ins.id].status == Stale then
      l.epochs[ins.id].burnAmount
    else 0
  }

  /** Fees recorded without tokens. */
  function Unbacked(hash: HashFn, l: Ledger, ins: Instruction, now: i64): nat {
    if ins.Records? && Refusal(hash, l, ins, now).None? then ins.amount else 0
  }

  /** Tokens that a sweep credits to an epoch whose split is over. */
  function Stranded(hash: HashFn, l: Ledger, ins: Instruction, now: i64): nat {
    if ins.Sweep? && Refusal(hash, l, ins, now).None? && l.epochs[ins.id + 1].status != Open then
      StakerResidual(l.epochs[ins.id]) + BurnResidual(l.epochs[ins.id])
    else 0
  }

  // ----- balances after a split

  lemma MoveBalance(tokens: map<Place, nat>, from: Place, to: Place, amount: nat, at: Place)
    requires from in tokens && to in tokens && tokens[from] >= amount && at in tokens
    ensures at in Move(tokens, from, to, amount)
    ensures Move(tokens, from, to, amount)[at] == tokens[at] - If(from == at, amount) + If(to == at, amount)
  {
  }

  lemma SendBalance(tokens: map<Place, nat>, from: Place, to: Place, amount: nat, at: Place)
    requires from in tokens && to in tokens && at in tokens && Send(tokens, from, to, amount).Some?
    ensures at in Send(tokens, from, to, amount).value
    ensures Send(tokens, from, to, amount).value[at] == tokens[at] - If(from == at, amount) + If(to == at, amount)
  {
    if amount > 0 {
      MoveBalance(tokens, from, to, amount, at);
    }
  }

  lemma SplitBalance(tokens: map<Place, nat>, c: Config, s: Fees.Split, at: Place)
    requires VaultsExist(tokens) && c.grantTo in tokens && c.treasuryTo in tokens && at in tokens
    requires SendSplit(tokens, c, s).Some?
    ensures at in SendSplit(tokens, c, s).value
    ensures SendSplit(tokens, c, s).value[at] ==
      tokens[at] - If(Intake == at, s.burn + s.staker + s.grant + s.treasury) + If(BurnVault == at, s.burn)
      + If(StakerVault == at, s.staker) + If(c.grantTo == at, s.grant) + If(c.treasuryTo == at, s.treasury)
  {
    var t1 := Send(tokens, Intake, BurnVault, s.burn).value;
    var t2 := Send(t1, Intake, StakerVault, s.staker).value;
    var t3 := Send(t2, Intake, c.grantTo, s.grant).value;
    SendBalance(tokens, Intake, BurnVault, s.burn, at);
    SendBalance(t1, Intake, StakerVault, s.staker, at);
    SendBalance(t2, Intake, c.grantTo, s.grant, at);
    SendBalance(t3, Intake, c.treasuryTo, s.treasury, at);
  }

  /** A split can be paid whenever the intake vault holds all of it. */
  lemma SplitAffordable(tokens: map<Place, nat>, c: Config, s: Fees.Split)
    requires VaultsExist(tokens) && c.grantTo in tokens && c.treasuryTo in tokens
    requires tokens[Intake] >= s.burn as int + s.staker + s.grant + s.treasury
    ensures SendSplit(tokens, c, s).Some?
  {
    SendBalance(tokens, Intake, BurnVault, s.burn, Intake);
    var t1 := Send(tokens, Intake, BurnVault, s.burn).value;
    SendBalance(t1, Intake, StakerVault, s.staker, Intake);
    var t2 := Send(t1, Intake, StakerVault, s.staker).value;
    SendBalance(t2, Intake, c.grantTo, s.grant, Intake);
  }

  /** With shares that make up 100% the four parts are the whole. */
  lemma SplitIsWhole(c: Config, total: u64)
    requires SharesOk(c.shares)
    ensures
      var s := SplitOf(c, total);
      s.burn as int + s.staker + s.grant + s.treasury == total
  {
    Fees.SplitConserves(total, c.shares.burn, c.shares.staker, c.shares.grant, c.shares.treasury);
  }

  lemma ProcessDue(l: Ledger, id: u64, now: i64, due: Epoch -> nat)
    requires Numbered(l) && ProcessRefusal(l, id, now).None?
    ensures
      var f := ProcessEffect(l, id, now);
      Due(f.epochs, due) + due(l.epochs[id]) == Due(l.epochs, due) + due(f.epochs[id]) + due(FreshEpoch(now))
  {
    var f := ProcessEffect(l, id, now);
    DueUpdate(l.epochs, id, f.epochs[id], due);
    DueInsert(l.epochs[id := f.epochs[id]], l.config.nextEpochId, FreshEpoch(now), due);
  }

  lemma SweepDue(l: Ledger, id: u64, now: i64, due: Epoch -> nat)
    requires SweepRefusal(l, id, now).None?
    ensures
      var f := SweepEffect(l, id, now);
      Due(f.epochs, due) + due(l.epochs[id]) + due(l.epochs[id + 1]) ==
        Due(l.epochs, due) + due(f.epochs[id]) + due(f.epochs[id + 1])
  {
    var f := SweepEffect(l, id, now);
    DueUpdate(l.epochs, id, f.epochs[id], due);
    DueUpdate(l.epochs[id := f.epochs[id]], id + 1, f.epochs[id + 1], due);
  }

  lemma SweepBalance(l: Ledger, id: u64, now: i64, at: Place)
    requires SweepRefusal(l, id, now).None? && at in l.tokens
    ensures
      var f, e := SweepEffect(l, id, now), l.epochs[id];
      && at in f.tokens
      && f.tokens[at] == l.tokens[at] - If(StakerVault == at, StakerResidual(e)) - If(BurnVault == at, BurnResidual(e))
         + If(Intake == at, StakerResidual(e) + BurnResidual(e))
  {
    var e := l.epochs[id];
    MoveBalance(l.tokens, StakerVault, Intake, StakerResidual(e), at);
    MoveBalance(Move(l.tokens, StakerVault, Intake, StakerResidual(e)), BurnVault, Intake, BurnResidual(e), at);
  }

  // ----- the three vaults, one instruction at a time

  /** The three instructions that touch several epochs or balances are treated on their own; the rest
      change one epoch and at most one transfer's worth of tokens. */
  lemma PlainDue(hash: HashFn, l: Ledger, ins: Instruction, now: i64, due: Epoch -> nat)
    requires Refusal(hash, l, ins, now).None? && !ins.Process? && !ins.Sweep?
    ensures
      var f := Step(hash, l, ins, now);
      && (TouchedId(l, ins).Some? ==>
            var id := TouchedId(l, ins).value;
            && id in l.epochs && id in f.epochs
            && Due(f.epochs, due) + due(l.epochs[id]) == Due(l.epochs, due) + due(f.epochs[id]))
      && (TouchedId(l, ins).None? ==> f.epochs == l.epochs)
  {
    if TouchedId(l, ins).Some? {
      var id := TouchedId(l, ins).value;
      DueUpdate(l.epochs, id, Step(hash, l, ins, now).epochs[id], due);
    }
  }

  function TouchedId(l: Ledger, ins: Instruction): Option<u64> {
    match ins
    case Collects(_) => Some(CurrentId(l))
    case Records(id, _, _) => Some(id)
    case Commit(id, _, _) => Some(id)
    case Claims(q) => Some(q.id)
    case Burn(id) => Some(id)
    case _ => None
  }

  function TakenOut(l: Ledger, ins: Instruction, at: Place): nat {
    match ins
    case Claims(q) => If(at == StakerVault, q.amount)
    case Burn(id) => if id in l.epochs then If(at == BurnVault, l.epochs[id].burnAmount) else 0
    case _ => 0
  }

  lemma PlainBalance(hash: HashFn, l: Ledger, ins: Instruction, now: i64, at: Place)
    requires Refusal(hash, l, ins, now).None? && !ins.Process? && !ins.Sweep? && at in l.tokens && !at.Wallet?
    ensures
      var f := Step(hash, l, ins, now);
      && at in f.tokens
      && f.tokens[at] == l.tokens[at] + Extra(hash, l, ins, now, at)
         + (if ins.Collects? then If(at == Intake, ins.amount) else 0) - TakenOut(l, ins, at)
  {
    match ins
    case Claims(q) => MoveBalance(l.tokens, StakerVault, q.destination, q.amount, at);
    case Pays(from, to, sum) => MoveBalance(l.tokens, Wallet(from), to, sum, at);
    case _ =>
  }

  lemma StakerVaultProcess(hash: HashFn, l: Ledger, id: u64, now: i64)
    requires Inv(l) && ProcessRefusal(l, id, now).None?
    ensures StakerVault in ProcessEffect(l, id, now).tokens
    ensures Surplus(ProcessEffect(l, id, now), StakerVault, StakerDue) ==
      Surplus(l, StakerVault, StakerDue) + Extra(hash, l, Process(id), now, StakerVault)
  {
    ProcessDue(l, id, now, StakerDue);
    SplitBalance(l.tokens, l.config, SplitOf(l.config, l.epochs[id].totalCollected), StakerVault);
    assert EpochOk(l.epochs[id]);
  }

  lemma StakerVaultSweep(hash: HashFn, l: Ledger, id: u64, now: i64)
    requires Inv(l) && SweepRefusal(l, id, now).None?
    ensures StakerVault in SweepEffect(l, id, now).tokens
    ensures Surplus(SweepEffect(l, id, now), StakerVault, StakerDue) ==
      Surplus(l, StakerVault, StakerDue)
  {
    SweepDue(l, id, now, StakerDue);
    SweepBalance(l, id, now, StakerVault);
  }

  lemma PlainStakerDue(hash: HashFn, l: Ledger, ins: Instruction, now: i64)
    requires Refusal(hash, l, ins, now).None? && TouchedId(l, ins).Some? && EpochsOk(l)
    ensures
      var f, id := Step(hash, l, ins, now), TouchedId(l, ins).value;
      && id in l.epochs && id in f.epochs
      && StakerDue(f.epochs[id]) == StakerDue(l.epochs[id]) - TakenOut(l, ins, StakerVault)
  {
    assert EpochOk(l.epochs[TouchedId(l, ins).value]);
  }

  lemma StakerVaultPlain(hash: HashFn, l: Ledger, ins: Instruction, now: i64)
    requires Inv(l) && Refusal(hash, l, ins, now).None? && !ins.Process? && !ins.Sweep?
    ensures StakerVault in Step(hash, l, ins, now).tokens
    ensures Surplus(Step(hash, l, ins, now), StakerVault, StakerDue) ==
      Surplus(l, StakerVault, StakerDue) + Extra(hash, l, ins, now, StakerVault)
  {
    PlainDue(hash, l, ins, now, StakerDue);
    PlainBalance(hash, l, ins, now, StakerVault);
    if TouchedId(l, ins).Some? {
      PlainStakerDue(hash, l, ins, now);
    }
  }

  /** The staker vault's surplus over what epochs owe their stakers changes only by extra payments. */
  lemma StakerVaultStep(hash: HashFn, l: Ledger, ins: Instruction, now: i64)
    requires Inv(l)
    ensures StakerVault in Step(hash, l, ins, now).tokens
    ensures Surplus(Step(hash, l, ins, now), StakerVault, StakerDue) ==
      Surplus(l, StakerVault, StakerDue) + Extra(hash, l, ins, now, StakerVault)
  {
    if Refusal(hash, l, ins, now).None? {
      if ins.Process? {
        StakerVaultProcess(hash, l, ins.id, now);
      } else if ins.Sweep? {
        StakerVaultSweep(hash, l, ins.id, now);
      } else {
        StakerVaultPlain(hash, l, ins, now);
      }
    }
  }

  lemma BurnVaultProcess(hash: HashFn, l: Ledger, id: u64, now: i64)
    requires Inv(l) && ProcessRefusal(l, id, now).None?
    ensures BurnVault in ProcessEffect(l, id, now).tokens
    ensures Surplus(ProcessEffect(l, id, now), BurnVault, BurnDue) ==
      Surplus(l, BurnVault, BurnDue) + Extra(hash, l, Process(id), now, BurnVault)
  {
    ProcessDue(l, id, now, BurnDue);
    SplitBalance(l.tokens, l.config, SplitOf(l.config, l.epochs[id].totalCollected), BurnVault);
    assert EpochOk(l.epochs[id]);
  }

  lemma BurnVaultSweep(hash: HashFn, l: Ledger, id: u64, now: i64)
    requires Inv(l) && SweepRefusal(l, id, now).None?
    ensures BurnVault in SweepEffect(l, id, now).tokens
    ensures Surplus(SweepEffect(l, id, now), BurnVault, BurnDue) ==
      Surplus(l, BurnVault, BurnDue)
  {
    SweepDue(l, id, now, BurnDue);
    SweepBalance(l, id, now, BurnVault);
  }

  lemma BurnVaultPlain(hash: HashFn, l: Ledger, ins: Instruction, now: i64)
    requires Inv(l) && Refusal(hash, l, ins, now).None? && !ins.Process? && !ins.Sweep?
    ensures BurnVault in Step(hash, l, ins, now).tokens
    ensures Surplus(Step(hash, l, ins, now), BurnVault, BurnDue) ==
      Surplus(l, BurnVault, BurnDue) + Extra(hash, l, ins, now, BurnVault) - LateBurn(hash, l, ins, now)
  {
    PlainDue(hash, l, ins, now, BurnDue);
    PlainBalance(hash, l, ins, now, BurnVault);
  }

  /** The burn vault's surplus over the burns that are due grows by extra payments and shrinks by late
      burns, and by nothing else. */
  lemma BurnVaultStep(hash: HashFn, l: Ledger, ins: Instruction, now: i64)
    requires Inv(l)
    ensures BurnVault in Step(hash, l, ins, now).tokens
    ensures Surplus(Step(hash, l, ins, now), BurnVault, BurnDue) ==
      Surplus(l, BurnVault, BurnDue) + Extra(hash, l, ins, now, BurnVault) - LateBurn(hash, l, ins, now)
  {
    if Refusal(hash, l, ins, now).None? {
      if ins.Process? {
        BurnVaultProcess(hash, l, ins.id, now);
      } else if ins.Sweep? {
        BurnVaultSweep(hash, l, ins.id, now);
      } else {
        BurnVaultPlain(hash, l, ins, now);
      }
    }
  }

  lemma IntakeProcess(hash: HashFn, l: Ledger, id: u64, now: i64)
    requires Inv(l) && ProcessRefusal(l, id, now).None?
    ensures Intake in ProcessEffect(l, id, now).tokens
    ensures Surplus(ProcessEffect(l, id, now), Intake, SplitDue) ==
      Surplus(l, Intake, SplitDue) + Extra(hash, l, Process(id), now, Intake)
  {
    ProcessDue(l, id, now, SplitDue);
    SplitBalance(l.tokens, l.config, SplitOf(l.config, l.epochs[id].totalCollected), Intake);
    SplitIsWhole(l.config, l.epochs[id].totalCollected);
  }

  lemma IntakeSweep(hash: HashFn, l: Ledger, id: u64, now: i64)
    requires Inv(l) && SweepRefusal(l, id, now).None?
    ensures Intake in SweepEffect(l, id, now).tokens
    ensures Surplus(SweepEffect(l, id, now), Intake, SplitDue) ==
      Surplus(l, Intake, SplitDue) + Stranded(hash, l, Sweep(id), now)
  {
    SweepDue(l, id, now, SplitDue);
    SweepBalance(l, id, now, Intake);
  }

  lemma IntakePlain(hash: HashFn, l: Ledger, ins: Instruction, now: i64)
    requires Inv(l) && Refusal(hash, l, ins, now).None? && !ins.Process? && !ins.Sweep?
    ensures Intake in Step(hash, l, ins, now).tokens
    ensures Surplus(Step(hash, l, ins, now), Intake, SplitDue) ==
      Surplus(l, Intake, SplitDue) + Extra(hash, l, ins, now, Intake) - Unbacked(hash, l, ins, now)
  {
    PlainDue(hash, l, ins, now, SplitDue);
    PlainBalance(hash, l, ins, now, Intake);
  }

  /** The intake vault's surplus over what the open epoch has collected grows by extra payments and by
      sweeps into closed epochs, and shrinks by fees recorded without tokens. */
  lemma IntakeStep(hash: HashFn, l: Ledger, ins: Instruction, now: i64)
    requires Inv(l)
    ensures Intake in Step(hash, l, ins, now).tokens
    ensures Surplus(Step(hash, l, ins, now), Intake, SplitDue) ==
      Surplus(l, Intake, SplitDue) + Extra(hash, l, ins, now, Intake) + Stranded(hash, l, ins, now)
      - Unbacked(hash, l, ins, now)
  {
    if Refusal(hash, l, ins, now).None? {
      if ins.Process? {
        IntakeProcess(hash, l, ins.id, now);
      } else if ins.Sweep? {
        IntakeSweep(hash, l, ins.id, now);
      } else {
        IntakePlain(hash, l, ins, now);
      }
    }
  }
}
