/** What the fee collector does with an epoch's fees, and when: the rates of a split, where its parts
    go, how much an epoch collected, and exactly when splits, commits, burns and sweeps go through. */
module FeeSchedule {
  import opened Wrappers
  import opened Bytes
  import opened Sums
  import opened FeeEpochs
  import opened FeeInvariants
  import opened FeeHistory

  // ----- the parts of a split

  /** `part` is `bps` ten-thousandths of `total`, rounded down. */
  predicate IsShare(part: nat, total: nat, bps: nat) {
    part * 10_000 <= total * bps < (part + 1) * 10_000
  }

  /** What a split puts where: the burn and staker shares into their vaults and on record, the grant
      share and the rest to the accounts in the config, all out of the intake vault. */
  ghost predicate SplitsByRates(l: Ledger, f: Ledger, id: u64, grant: nat, rest: nat) {
    && id in l.epochs && id in f.epochs
    && var total, e, c := l.epochs[id].totalCollected, f.epochs[id], l.config;
       && IsShare(e.burnAmount, total, c.shares.burn) && IsShare(e.stakerAmount, total, c.shares.staker)
       && IsShare(grant, total, c.shares.grant)
       && e.burnAmount as int + e.stakerAmount + grant + rest == total == e.totalCollected
       && f.tokens.Keys == l.tokens.Keys
       && forall at :: at in l.tokens ==>
            f.tokens[at] == l.tokens[at] - If(at == Intake, total) + If(at == BurnVault, e.burnAmount)
              + If(at == StakerVault, e.stakerAmount) + If(at == c.grantTo, grant) + If(at == c.treasuryTo, rest)
  }

  lemma SplitShares(c: Config, total: u64)
    requires SharesOk(c.shares)
    ensures
      var s := SplitOf(c, total);
      && IsShare(s.burn, total, c.shares.burn) && IsShare(s.staker, total, c.shares.staker)
      && IsShare(s.grant, total, c.shares.grant)
      && s.burn as int + s.staker + s.grant + s.treasury == total
  {
    Fees.SplitConserves(total, c.shares.burn, c.shares.staker, c.shares.grant, c.shares.treasury);
    Fees.ShareBounds(total, c.shares.burn);
    Fees.ShareBounds(total, c.shares.staker);
    Fees.ShareBounds(total, c.shares.grant);
  }

  lemma ProcessSplits(l: Ledger, id: u64, now: i64)
    requires Inv(l) && ProcessRefusal(l, id, now).None?
    ensures
      var s := SplitOf(l.config, l.epochs[id].totalCollected);
      SplitsByRates(l, ProcessEffect(l, id, now), id, s.grant, s.treasury)
  {
    var s := SplitOf(l.config, l.epochs[id].totalCollected);
    SplitShares(l.config, l.epochs[id].totalCollected);
    SendKeys(l.tokens, l.config, s);
    forall at | at in l.tokens
      ensures at in SendSplit(l.tokens, l.config, s).value
      ensures SendSplit(l.tokens, l.config, s).value[at] ==
        l.tokens[at] - If(Intake == at, s.burn + s.staker + s.grant + s.treasury) + If(BurnVault == at, s.burn)
        + If(StakerVault == at, s.staker) + If(l.config.grantTo == at, s.grant)
        + If(l.config.treasuryTo == at, s.treasury)
    {
      SplitBalance(l.tokens, l.config, s, at);
    }
  }

  /** On every run each accepted split divides what the epoch has collected by the rates of the moment,
      rounding down and leaving the rest to the treasury, and every token account changes by exactly
      the parts that go to it. */
  lemma SplitFollowsRates(hash: HashFn, l: Ledger, evs: seq<Event>, i: nat, id: u64) returns (grant: nat, rest: nat)
    requires Genesis(l) && Accepted(hash, l, evs, i) && evs[i].ins == Process(id)
    ensures SplitsByRates(At(hash, l, evs, i), At(hash, l, evs, i + 1), id, grant, rest)
  {
    var b := At(hash, l, evs, i);
    BooksHold(hash, l, evs[..i]);
    AtNext(hash, l, evs, i);
    ProcessSplits(b, id, evs[i].now);
    var s := SplitOf(b.config, b.epochs[id].totalCollected);
    grant, rest := s.grant, s.treasury;
  }

  // ----- when an epoch was split

  lemma StepSplits(hash: HashFn, l: Ledger, ins: Instruction, now: i64, id: u64)
    requires Inv(l) && id in Step(hash, l, ins, now).epochs && Step(hash, l, ins, now).epochs[id].status != Open
    ensures id in l.epochs
    ensures l.epochs[id].status == Open ==>
      ins == Process(id) && Refusal(hash, l, ins, now).None? && Step(hash, l, ins, now).epochs[id].closedAt == now
    ensures l.epochs[id].status != Open ==>
      && Step(hash, l, ins, now).epochs[id].closedAt == l.epochs[id].closedAt
      && Step(hash, l, ins, now).epochs[id].burnAmount == l.epochs[id].burnAmount
      && Step(hash, l, ins, now).epochs[id].stakerAmount == l.epochs[id].stakerAmount
  {
    if id in l.epochs && l.epochs[id].status != Open {
      StepAgesEpoch(hash, l, ins, now, id);
    }
  }

  lemma AcceptedInPrefix(hash: HashFn, l: Ledger, evs: seq<Event>, n: nat, k: nat)
    requires k < n <= |evs|
    ensures Accepted(hash, l, evs[..n], k) <==> Accepted(hash, l, evs, k)
  {
    assert evs[..n][..k] == evs[..k];
  }

  /** Every epoch that is no longer open was split by one accepted event, whose time it records. */
  lemma {:induction false} SplitHasOrigin(hash: HashFn, l: Ledger, evs: seq<Event>, id: u64) returns (i: nat)
    requires Genesis(l) && id in Run(hash, l, evs).epochs && Run(hash, l, evs).epochs[id].status != Open
    ensures Accepted(hash, l, evs, i) && evs[i].ins == Process(id)
    ensures Run(hash, l, evs).epochs[id].closedAt == evs[i].now
  {
    var n := |evs| - 1;
    BooksHold(hash, l, evs[..n]);
    StepSplits(hash, Run(hash, l, evs[..n]), evs[n].ins, evs[n].now, id);
    if Run(hash, l, evs[..n]).epochs[id].status == Open {
      i := n;
    } else {
      i := SplitHasOrigin(hash, l, evs[..n], id);
      AcceptedInPrefix(hash, l, evs, n, i);
    }
  }

  lemma StepStarts(hash: HashFn, l: Ledger, ins: Instruction, now: i64, id: u64)
    requires Inv(l) && id in Step(hash, l, ins, now).epochs
    ensures
      var f := Step(hash, l, ins, now);
      if id in l.epochs then f.epochs[id].startedAt == l.epochs[id].startedAt
      else id > 0 && ins == Process(id - 1) && Refusal(hash, l, ins, now).None? && f.epochs[id].startedAt == now
  {
    if Refusal(hash, l, ins, now).None? && ins.Process? {
      assert ins.id == l.config.nextEpochId - 1;
    }
  }

  /** The first epoch starts with the program, and every later one with the split of the one before. */
  lemma {:induction false} StartHasOrigin(hash: HashFn, l: Ledger, evs: seq<Event>, id: u64) returns (i: nat)
    requires Genesis(l) && id in Run(hash, l, evs).epochs
    ensures id == 0 ==> Run(hash, l, evs).epochs[id].startedAt == l.epochs[0].startedAt
    ensures id > 0 ==>
      && Accepted(hash, l, evs, i) && evs[i].ins == Process(id - 1)
      && Run(hash, l, evs).epochs[id].startedAt == evs[i].now
  {
    i := 0;
    if |evs| > 0 {
      var n := |evs| - 1;
      BooksHold(hash, l, evs[..n]);
      StepStarts(hash, Run(hash, l, evs[..n]), evs[n].ins, evs[n].now, id);
      if id in Run(hash, l, evs[..n]).epochs {
        i := StartHasOrigin(hash, l, evs[..n], id);
        if id > 0 {
          AcceptedInPrefix(hash, l, evs, n, i);
        }
      } else {
        i := n;
      }
    }
  }

  ghost predicate SameSchedule(a: Config, b: Config) {
    && b.epochDuration == a.epochDuration && b.claimWindow == a.claimWindow && b.minBurn == a.minBurn
    && b.authority == a.authority && b.metaAuthority == a.metaAuthority
    && b.emergencyCouncil == a.emergencyCouncil && b.grantTo == a.grantTo && b.treasuryTo == a.treasuryTo
  }

  lemma StepKeepsSchedule(hash: HashFn, l: Ledger, ins: Instruction, now: i64)
    ensures SameSchedule(l.config, Step(hash, l, ins, now).config)
  {
  }

  /** Durations, signers, thresholds and recipients stay as they were configured. */
  lemma {:induction false} ScheduleFixed(hash: HashFn, l: Ledger, evs: seq<Event>)
    ensures SameSchedule(l.config, Run(hash, l, evs).config)
  {
    if |evs| > 0 {
      ScheduleFixed(hash, l, evs[..|evs| - 1]);
      StepKeepsSchedule(hash, Run(hash, l, evs[..|evs| - 1]), evs[|evs| - 1].ins, evs[|evs| - 1].now);
    }
  }

  /** Two epochs in a row are split at least an epoch's duration apart. */
  lemma SplitsSpaced(hash: HashFn, l: Ledger, evs: seq<Event>, j: nat, id: u64) returns (i: nat)
    requires Genesis(l) && Accepted(hash, l, evs, j) && evs[j].ins == Process(id) && id > 0
    ensures i < j && Accepted(hash, l, evs, i) && evs[i].ins == Process(id - 1)
    ensures evs[j].now >= evs[i].now + l.config.epochDuration
  {
    i := StartHasOrigin(hash, l, evs[..j], id);
    AcceptedInPrefix(hash, l, evs, j, i);
    ScheduleFixed(hash, l, evs[..j]);
  }

  // ----- exactly when

  /** The program runs, and this epoch's duration is over. */
  predicate CanSplit(l: Ledger, id: u64, now: i64)
    requires id in l.epochs
  {
    && !l.config.paused && id + 2 < U64_LIMIT
    && FitsI64(l.epochs[id].startedAt + l.config.epochDuration)
    && now >= l.epochs[id].startedAt + l.config.epochDuration
  }

  lemma NewestIsOpen(l: Ledger, id: u64)
    requires Numbered(l) && OneOpen(l) && id + 1 == l.config.nextEpochId
    ensures id in l.epochs && l.epochs[id].status == Open && l.config.nextEpochId !in l.epochs
  {
  }

  lemma ProcessOpen(l: Ledger, id: u64, now: i64)
    requires Inv(l) && ProcessRefusal(l, id, now) != Some(InsufficientFunds)
    ensures id + 1 == l.config.nextEpochId ==> id in l.epochs
    ensures ProcessRefusal(l, id, now).None? <==> id + 1 == l.config.nextEpochId && CanSplit(l, id, now)
  {
    if id + 1 == l.config.nextEpochId {
      NewestIsOpen(l, id);
    }
  }

  lemma IntakeOpen(l: Ledger, id: u64, amount: u64, registered: bool)
    requires Inv(l) && id + 1 == l.config.nextEpochId
    ensures CollectRefusal(l, amount).None? <==> !l.config.paused && TotalOf(l, id) + amount < U64_LIMIT
    ensures forall x: u64 :: RecordRefusal(l, x, amount, registered).None? <==>
      registered && x == id && TotalOf(l, id) + amount < U64_LIMIT
  {
    NewestIsOpen(l, id);
    assert CurrentId(l) == id;
  }

  /** On every run a harvest goes through exactly while the program is not paused, and a record exactly
      for a caller on the list and the newest epoch, short of overflow. */
  lemma IntakeAcceptedExactly(hash: HashFn, l: Ledger, evs: seq<Event>, id: u64, amount: u64, registered: bool,
                              now: i64)
    requires Genesis(l) && id + 1 == Run(hash, l, evs).config.nextEpochId
    ensures
      var f := Run(hash, l, evs);
      Refusal(hash, f, Collects(amount), now).None? <==> !f.config.paused && TotalOf(f, id) + amount < U64_LIMIT
    ensures
      var f := Run(hash, l, evs);
      forall x: u64 :: Refusal(hash, f, Records(x, amount, registered), now).None? <==>
        registered && x == id && TotalOf(f, id) + amount < U64_LIMIT
  {
    BooksHold(hash, l, evs);
    IntakeOpen(Run(hash, l, evs), id, amount, registered);
  }

  /** Recorded amounts have not outrun what is there beside the books. */
  ghost predicate Backed(hash: HashFn, l: Ledger, evs: seq<Event>)
    requires Intake in l.tokens
  {
    Sum(hash, l, evs, WithoutTokens(hash)) <=
      l.tokens[Intake] + Sum(hash, l, evs, ExtraAt(hash, Intake)) + Sum(hash, l, evs, IntoClosed(hash))
  }

  /** On every run whose recorded amounts are backed, only the newest epoch is ever split, and exactly
      when the program is not paused and an epoch's duration has passed since that epoch began, short
      of overflow. */
  lemma SplitAcceptedExactly(hash: HashFn, l: Ledger, evs: seq<Event>, id: u64, now: i64)
    requires Genesis(l) && Backed(hash, l, evs)
    ensures id + 1 == Run(hash, l, evs).config.nextEpochId ==> id in Run(hash, l, evs).epochs
    ensures Refusal(hash, Run(hash, l, evs), Process(id), now).None? <==>
      id + 1 == Run(hash, l, evs).config.nextEpochId && CanSplit(Run(hash, l, evs), id, now)
    ensures Run(hash, l, evs).config.epochDuration == l.config.epochDuration
  {
    BooksHold(hash, l, evs);
    ScheduleFixed(hash, l, evs);
    BackedSplitsGoThrough(hash, l, evs, id, now);
    ProcessOpen(Run(hash, l, evs), id, now);
  }

  lemma CommitOpen(l: Ledger, id: u64, signer: Key, now: i64)
    requires id in l.epochs && EpochOk(l.epochs[id])
    ensures CommitRefusal(l, id, signer, now).None? <==>
      && (signer == l.config.authority || signer == l.config.metaAuthority)
      && l.epochs[id].status == Splitting
      && FitsI64(l.epochs[id].closedAt + 2 * DAY) && now < l.epochs[id].closedAt + 2 * DAY
  {
  }

  /** On every run a root can be committed for a split epoch exactly by one of the two authorities,
      within two days of the split, while none has been committed and no sweep has come. */
  lemma CommitAcceptedExactly(hash: HashFn, l: Ledger, evs: seq<Event>, id: u64, root: bytes32, signer: Key, now: i64)
    returns (i: nat)
    requires Genesis(l) && id in Run(hash, l, evs).epochs && Run(hash, l, evs).epochs[id].status != Open
    ensures Accepted(hash, l, evs, i) && evs[i].ins == Process(id)
    ensures Refusal(hash, Run(hash, l, evs), Commit(id, root, signer), now).None? <==>
      && (signer == l.config.authority || signer == l.config.metaAuthority)
      && Run(hash, l, evs).epochs[id].status == Splitting
      && FitsI64(evs[i].now + 2 * DAY) && now < evs[i].now + 2 * DAY
  {
    i := SplitHasOrigin(hash, l, evs, id);
    BooksHold(hash, l, evs);
    ScheduleFixed(hash, l, evs);
    CommitOpen(Run(hash, l, evs), id, signer, now);
  }

  lemma StepCommits(hash: HashFn, l: Ledger, ins: Instruction, now: i64, id: u64)
    requires Inv(l) && id in Step(hash, l, ins, now).epochs && Step(hash, l, ins, now).epochs[id].committed
    ensures
      var e := Step(hash, l, ins, now).epochs[id];
      if id in l.epochs && l.epochs[id].committed then e.root == l.epochs[id].root
      else
        && Refusal(hash, l, ins, now).None? && ins.Commit? && ins.id == id && e.root == ins.root
        && (ins.signer == l.config.authority || ins.signer == l.config.metaAuthority)
  {
    if id in l.epochs {
      assert EpochOk(l.epochs[id]);
    }
  }

  /** A committed epoch has the root that one accepted commit of an authority named. */
  lemma {:induction false} CommitHasOrigin(hash: HashFn, l: Ledger, evs: seq<Event>, id: u64) returns (i: nat)
    requires Genesis(l) && id in Run(hash, l, evs).epochs && Run(hash, l, evs).epochs[id].committed
    ensures Accepted(hash, l, evs, i) && evs[i].ins.Commit? && evs[i].ins.id == id
    ensures evs[i].ins.root == Run(hash, l, evs).epochs[id].root
    ensures evs[i].ins.signer == l.config.authority || evs[i].ins.signer == l.config.metaAuthority
  {
    var n := |evs| - 1;
    BooksHold(hash, l, evs[..n]);
    ScheduleFixed(hash, l, evs[..n]);
    var b := Run(hash, l, evs[..n]);
    StepCommits(hash, b, evs[n].ins, evs[n].now, id);
    if id in b.epochs && b.epochs[id].committed {
      i := CommitHasOrigin(hash, l, evs[..n], id);
      AcceptedInPrefix(hash, l, evs, n, i);
    } else {
      i := n;
    }
  }

  /** Whatever a claim pays leaves the staker vault for the account that the claim names, and nothing
      else moves. */
  lemma ClaimPaysExactly(hash: HashFn, l: Ledger, q: ClaimRequest, now: i64, at: Place)
    requires Refusal(hash, l, Claims(q), now).None? && at in l.tokens
    ensures
      var f := Step(hash, l, Claims(q), now);
      && at in f.tokens
      && f.tokens[at] == l.tokens[at] - If(at == StakerVault, q.amount) + If(at == q.destination, q.amount)
  {
    MoveBalance(l.tokens, StakerVault, q.destination, q.amount, at);
  }

  /** A burn of a swept epoch is accepted on the same terms as one in time, and then takes other money:
      it asks no more than that the vault holds the amount. */
  lemma StaleBurnExactly(hash: HashFn, l: Ledger, evs: seq<Event>, id: u64, now: i64)
    requires Genesis(l) && id in Run(hash, l, evs).epochs && Run(hash, l, evs).epochs[id].status == Stale
    ensures
      var f := Run(hash, l, evs);
      && BurnVault in f.tokens
      && (Refusal(hash, f, Burn(id), now).None? <==>
            && !f.epochs[id].burnExecuted && f.epochs[id].totalCollected >= l.config.minBurn
            && f.epochs[id].burnAmount <= f.tokens[BurnVault])
  {
    BooksHold(hash, l, evs);
    ScheduleFixed(hash, l, evs);
  }

  /** On every run with covered burns, the burn share of a split, unswept epoch can be burned exactly
      once, when the epoch's total reaches the threshold. */
  lemma BurnAcceptedExactly(hash: HashFn, l: Ledger, evs: seq<Event>, id: u64, now: i64)
    requires Genesis(l) && LateBurnsCovered(hash, l, evs)
    requires id in Run(hash, l, evs).epochs && Run(hash, l, evs).epochs[id].status != Stale
    ensures
      var f := Run(hash, l, evs);
      Refusal(hash, f, Burn(id), now).None? <==>
        f.epochs[id].status != Open && !f.epochs[id].burnExecuted && f.epochs[id].totalCollected >= l.config.minBurn
  {
    CoveredBurnsGoThrough(hash, l, evs, id);
    BooksHold(hash, l, evs);
    ScheduleFixed(hash, l, evs);
  }

  /** What the sweep of an epoch would add to the next one's total. */
  function SweepCredit(e: Epoch): nat {
    StakerResidual(e) + BurnResidual(e)
  }

  /** It is not swept yet, its claim window ended seven days ago, and its rest fits the next total. */
  predicate CanSweep(l: Ledger, id: u64, claimEnd: int, now: i64)
    requires id in l.epochs && id + 1 in l.epochs
  {
    && l.epochs[id].status != Stale
    && FitsI64(claimEnd) && FitsI64(claimEnd + 7 * DAY) && now >= claimEnd + 7 * DAY
    && l.epochs[id + 1].totalCollected + SweepCredit(l.epochs[id]) < U64_LIMIT
  }

  lemma SweepOpen(l: Ledger, id: u64, now: i64)
    requires id in l.epochs && id + 1 in l.epochs && EpochOk(l.epochs[id]) && VaultsExist(l.tokens)
    requires l.epochs[id].status != Open && SweepRefusal(l, id, now) != Some(InsufficientFunds)
    ensures SweepRefusal(l, id, now).None? <==> CanSweep(l, id, l.epochs[id].closedAt + l.config.claimWindow, now)
  {
  }

  lemma NextExists(l: Ledger, id: u64)
    requires Inv(l) && id in l.epochs && l.epochs[id].status != Open
    ensures id + 1 < U64_LIMIT && id + 1 in l.epochs && EpochOk(l.epochs[id])
  {
    assert id != l.config.nextEpochId - 1;
  }

  /** On every run with covered burns, a split epoch can be swept exactly once, from seven days after
      its claim window has ended, short of overflow. */
  lemma SweepAcceptedExactly(hash: HashFn, l: Ledger, evs: seq<Event>, id: u64, now: i64) returns (i: nat)
    requires Genesis(l) && LateBurnsCovered(hash, l, evs)
    requires id in Run(hash, l, evs).epochs && Run(hash, l, evs).epochs[id].status != Open
    ensures Accepted(hash, l, evs, i) && evs[i].ins == Process(id)
    ensures id + 1 < U64_LIMIT && id + 1 in Run(hash, l, evs).epochs
    ensures Refusal(hash, Run(hash, l, evs), Sweep(id), now).None? <==>
      CanSweep(Run(hash, l, evs), id, evs[i].now + l.config.claimWindow, now)
  {
    i := SplitHasOrigin(hash, l, evs, id);
    BooksHold(hash, l, evs);
    ScheduleFixed(hash, l, evs);
    NextExists(Run(hash, l, evs), id);
    CoveredSweepsGoThrough(hash, l, evs, id, now);
    SweepOpen(Run(hash, l, evs), id, now);
  }

  // ----- what an epoch has collected

  /** What an accepted instruction brings to an epoch's total: a harvest to the newest, a record to the
      one it names, and a sweep to the one after. */
  function Brought(hash: HashFn, l: Ledger, ins: Instruction, now: i64, id: u64): nat {
    if Refusal(hash, l, ins, now).Some? then 0
    else
      match ins
      case Collects(amount) => if id + 1 == l.config.nextEpochId then amount else 0
      case Records(x, amount, _) => if x == id then amount else 0
      case Sweep(x) => if x + 1 == id then SweepCredit(l.epochs[x]) else 0
      case _ => 0
  }

  function BroughtTo(hash: HashFn, id: u64): (Ledger, Instruction, i64) -> nat {
    (m: Ledger, ins: Instruction, now: i64) => Brought(hash, m, ins, now, id)
  }

  function TotalOf(l: Ledger, id: u64): nat {
    if id in l.epochs then l.epochs[id].totalCollected else 0
  }

  lemma StepBrings(hash: HashFn, l: Ledger, ins: Instruction, now: i64, id: u64)
    requires Inv(l)
    ensures TotalOf(Step(hash, l, ins, now), id) == TotalOf(l, id) + Brought(hash, l, ins, now, id)
  {
  }

  /** On every run an epoch's total is exactly what harvests, records and sweeps have brought to it. */
  lemma {:induction false} CollectedExactly(hash: HashFn, l: Ledger, evs: seq<Event>, id: u64)
    requires Genesis(l)
    ensures TotalOf(Run(hash, l, evs), id) == Sum(hash, l, evs, BroughtTo(hash, id))
  {
    if |evs| > 0 {
      var before, last := evs[..|evs| - 1], evs[|evs| - 1];
      CollectedExactly(hash, l, before, id);
      BooksHold(hash, l, before);
      StepBrings(hash, Run(hash, l, before), last.ins, last.now, id);
    }
  }

  // ----- conservation of tokens

  function Harvested(hash: HashFn, l: Ledger, ins: Instruction, now: i64): nat {
    if ins.Collects? && Refusal(hash, l, ins, now).None? then ins.amount else 0
  }

  function Burned(hash: HashFn, l: Ledger, ins: Instruction, now: i64): nat {
    if ins.Burn? && Refusal(hash, l, ins, now).None? then l.epochs[ins.id].burnAmount else 0
  }

  lemma MoveConserves(tokens: map<Place, nat>, from: Place, to: Place, amount: nat)
    requires from in tokens && to in tokens && tokens[from] >= amount
    ensures Total(Move(tokens, from, to, amount)) == Total(tokens)
  {
    TotalTransfer(tokens, tokens[from := tokens[from] - amount], Move(tokens, from, to, amount), from, to, amount);
  }

  lemma SendConserves(tokens: map<Place, nat>, from: Place, to: Place, amount: nat)
    requires from in tokens && to in tokens && Send(tokens, from, to, amount).Some?
    ensures Total(Send(tokens, from, to, amount).value) == Total(tokens)
  {
    if amount > 0 {
      MoveConserves(tokens, from, to, amount);
    }
  }

  lemma SplitConservesTokens(tokens: map<Place, nat>, c: Config, s: Fees.Split)
    requires VaultsExist(tokens) && c.grantTo in tokens && c.treasuryTo in tokens && SendSplit(tokens, c, s).Some?
    ensures Total(SendSplit(tokens, c, s).value) == Total(tokens)
  {
    var t1 := Send(tokens, Intake, BurnVault, s.burn).value;
    var t2 := Send(t1, Intake, StakerVault, s.staker).value;
    var t3 := Send(t2, Intake, c.grantTo, s.grant).value;
    SendConserves(tokens, Intake, BurnVault, s.burn);
    SendConserves(t1, Intake, StakerVault, s.staker);
    SendConserves(t2, Intake, c.grantTo, s.grant);
    SendConserves(t3, Intake, c.treasuryTo, s.treasury);
  }

  lemma SweepConserves(l: Ledger, id: u64, now: i64)
    requires SweepRefusal(l, id, now).None?
    ensures Total(SweepEffect(l, id, now).tokens) == Total(l.tokens)
  {
    var e := l.epochs[id];
    MoveConserves(l.tokens, StakerVault, Intake, StakerResidual(e));
    MoveConserves(Move(l.tokens, StakerVault, Intake, StakerResidual(e)), BurnVault, Intake, BurnResidual(e));
  }

  lemma StepConserves(hash: HashFn, l: Ledger, ins: Instruction, now: i64)
    ensures Total(Step(hash, l, ins, now).tokens) + Burned(hash, l, ins, now) ==
      Total(l.tokens) + Harvested(hash, l, ins, now)
  {
    if Refusal(hash, l, ins, now).None? {
      match ins
      case Collects(amount) => TotalUpdate(l.tokens, Intake, l.tokens[Intake] + amount);
      case Process(id) => SplitConservesTokens(l.tokens, l.config, SplitOf(l.config, l.epochs[id].totalCollected));
      case Claims(q) => MoveConserves(l.tokens, StakerVault, q.destination, q.amount);
      case Burn(id) => TotalUpdate(l.tokens, BurnVault, l.tokens[BurnVault] - l.epochs[id].burnAmount);
      case Sweep(id) => SweepConserves(l, id, now);
      case Pays(from, to, sum) => MoveConserves(l.tokens, Wallet(from), to, sum);
      case _ =>
    }
  }

  function HarvestedAt(hash: HashFn): (Ledger, Instruction, i64) -> nat {
    (m: Ledger, ins: Instruction, now: i64) => Harvested(hash, m, ins, now)
  }

  function BurnedAt(hash: HashFn): (Ledger, Instruction, i64) -> nat {
    (m: Ledger, ins: Instruction, now: i64) => Burned(hash, m, ins, now)
  }

  /** On every run all tokens are those there were at first and those harvested, less those burned. */
  lemma {:induction false} TokensConserved(hash: HashFn, l: Ledger, evs: seq<Event>)
    ensures Total(Run(hash, l, evs).tokens) + Sum(hash, l, evs, BurnedAt(hash)) ==
      Total(l.tokens) + Sum(hash, l, evs, HarvestedAt(hash))
  {
    if |evs| > 0 {
      var before, last := evs[..|evs| - 1], evs[|evs| - 1];
      TokensConserved(hash, l, before);
      StepConserves(hash, Run(hash, l, before), last.ins, last.now);
    }
  }

  // ----- who sets the rates

  predicate WithinCaps(s: Shares) {
    s.burn <= 2_000 && s.staker <= 7_500 && s.grant <= 3_000 && s.treasury <= 3_000
  }

  /** The rates and the pause flag change only by accepted settings of their signers, to what these say;
      and the rates, if within 20, 75, 30 and 30 percent at first, stay so. */
  lemma StepSettings(hash: HashFn, l: Ledger, ins: Instruction, now: i64)
    ensures
      var f := Step(hash, l, ins, now);
      && (f.config.shares != l.config.shares ==>
            ins.SetShares? && ins.signer == l.config.metaAuthority && f.config.shares == ins.shares)
      && (f.config.paused != l.config.paused ==>
            && ins.SetPaused? && f.config.paused == ins.paused
            && (ins.signer == l.config.authority || ins.signer == l.config.emergencyCouncil))
      && (WithinCaps(l.config.shares) ==> WithinCaps(f.config.shares))
  {
  }

  /** New rates go through exactly when the meta authority signs, they make up 100%, and none is above
      its cap; the pause flag exactly for the authority and the emergency council. Both take effect. */
  lemma SettingsAcceptedExactly(hash: HashFn, l: Ledger, signer: Key, s: Shares, paused: bool, now: i64)
    ensures
      var accepted := Refusal(hash, l, SetShares(signer, s), now).None?;
      && (accepted <==> signer == l.config.metaAuthority && SharesOk(s) && WithinCaps(s))
      && (accepted ==> Step(hash, l, SetShares(signer, s), now).config.shares == s)
    ensures
      var accepted := Refusal(hash, l, SetPaused(signer, paused), now).None?;
      && (accepted <==> signer == l.config.authority || signer == l.config.emergencyCouncil)
      && (accepted ==> Step(hash, l, SetPaused(signer, paused), now).config.paused == paused)
  {
  }
}
