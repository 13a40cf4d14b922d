/** Claims about whole runs of the staking program: any sequence of instructions, accepted or not,
    at times that never go backwards, from a state in which only wallets hold tokens. */
module StakingHistory {
  import opened Wrappers
  import opened Bytes
  import opened Counting
  import opened Sums
  import opened StakingModel
  import opened StakingInvariants

  datatype Event = Event(now: int, ins: Instruction)

  ghost predicate Genesis(s: State) {
    && s.config.None? && s.guard.None? && s.callers.None? && s.pool.None?
    && s.stakes == map[] && s.snapshots == map[]
    && forall t :: t in s.tokens ==> t.Wallet?
  }

  /** Clock readings are 64-bit and never go backwards. */
  ghost predicate Timed(evs: seq<Event>) {
    && (forall i :: 0 <= i < |evs| ==> FitsI64(evs[i].now))
    && forall i, j :: 0 <= i < j < |evs| ==> evs[i].now <= evs[j].now
  }

  function Run(s: State, evs: seq<Event>): State {
    if |evs| == 0 then s
    else
      var last := evs[|evs| - 1];
      Step(Run(s, evs[..|evs| - 1]), last.ins, last.now)
  }

  /** The state before event i. */
  function At(s: State, evs: seq<Event>, i: nat): State
    requires i <= |evs|
  {
    Run(s, evs[..i])
  }

  predicate Accepted(s: State, evs: seq<Event>, i: nat) {
    i < |evs| && Refusal(At(s, evs, i), evs[i].ins, evs[i].now).None?
  }

  lemma AtNext(s: State, evs: seq<Event>, i: nat)
    requires i < |evs|
    ensures At(s, evs, i + 1) == Step(At(s, evs, i), evs[i].ins, evs[i].now)
  {
    assert evs[..i + 1][..i] == evs[..i];
  }

  // ----- accounting and custody

  /** In every reachable state the books balance, and the tokens are the ones there were. */
  lemma {:induction false} BooksBalance(s: State, evs: seq<Event>)
    requires Genesis(s) && Timed(evs)
    ensures Inv(Run(s, evs)) && Total(Run(s, evs).tokens) == Total(s.tokens)
  {
    if |evs| == 0 {
      assert ActiveAmounts(s.stakes) == map[];
    } else {
      var before, last := evs[..|evs| - 1], evs[|evs| - 1];
      BooksBalance(s, before);
      StepKeepsInv(Run(s, before), last.ins, last.now);
      StepConservesTokens(Run(s, before), last.ins, last.now);
    }
  }

  ghost predicate NobodyPaysVaults(s: State, evs: seq<Event>, upTo: nat)
    requires upTo <= |evs|
  {
    forall i :: 0 <= i < upTo ==> !PaysVault(At(s, evs, i), evs[i].ins, evs[i].now)
  }

  lemma TimedPrefix(evs: seq<Event>, i: nat)
    requires Timed(evs) && i <= |evs|
    ensures Timed(evs[..i])
  {
  }

  lemma VaultsStand(s: State, evs: seq<Event>, j: nat)
    requires Genesis(s) && Timed(evs) && j <= |evs|
    ensures VaultsCover(At(s, evs, j)) && ShapesRight(At(s, evs, j))
  {
    TimedPrefix(evs, j);
    BooksBalance(s, evs[..j]);
  }

  lemma NobodyPaysNext(s: State, evs: seq<Event>, j: nat)
    requires j < |evs|
    ensures NobodyPaysVaults(s, evs, j + 1) <==>
      NobodyPaysVaults(s, evs, j) && !PaysVault(At(s, evs, j), evs[j].ins, evs[j].now)
  {
  }

  /** At any moment of any run every vault holds exactly its account's amount if and only if no
      accepted withdrawal and no positive outside transfer has gone into a vault so far. */
  lemma {:induction false} VaultsExactIff(s: State, evs: seq<Event>, j: nat)
    requires Genesis(s) && Timed(evs) && j <= |evs|
    ensures VaultsExact(At(s, evs, j)) <==> NobodyPaysVaults(s, evs, j)
    decreases j
  {
    if j > 0 {
      VaultsExactIff(s, evs, j - 1);
      VaultsStand(s, evs, j - 1);
      AtNext(s, evs, j - 1);
      StepVaultsExactly(At(s, evs, j - 1), evs[j - 1].ins, evs[j - 1].now);
      NobodyPaysNext(s, evs, j - 1);
    } else {
      assert At(s, evs, 0) == s;
    }
  }

  // ----- the staker count

  ghost predicate NeverFull(s: State, evs: seq<Event>, upTo: nat)
    requires upTo <= |evs|
  {
    forall i :: 0 <= i < upTo ==> !MeetsFullCounter(At(s, evs, i), evs[i].ins, evs[i].now)
  }

  lemma {:induction false} CountStaysRight(s: State, evs: seq<Event>, j: nat)
    requires Genesis(s) && Timed(evs) && j <= |evs| && NeverFull(s, evs, j)
    ensures StakerCountRight(At(s, evs, j))
    decreases j
  {
    if j > 0 {
      CountStaysRight(s, evs, j - 1);
      TimedPrefix(evs, j - 1);
      BooksBalance(s, evs[..j - 1]);
      AtNext(s, evs, j - 1);
      StepKeepsCount(At(s, evs, j - 1), evs[j - 1].ins, evs[j - 1].now);
    }
  }

  /** The staker count is the number of accounts not withdrawn throughout a run if and only if no
      accepted stake of the run arrives at a full 32-bit counter. */
  lemma CountRightIff(s: State, evs: seq<Event>)
    requires Genesis(s) && Timed(evs)
    ensures (forall j :: 0 <= j <= |evs| ==> StakerCountRight(At(s, evs, j))) <==> NeverFull(s, evs, |evs|)
  {
    if NeverFull(s, evs, |evs|) {
      forall j | 0 <= j <= |evs|
        ensures StakerCountRight(At(s, evs, j))
      {
        CountStaysRight(s, evs, j);
      }
    }
    if forall j :: 0 <= j <= |evs| ==> StakerCountRight(At(s, evs, j)) {
      forall i | 0 <= i < |evs|
        ensures !MeetsFullCounter(At(s, evs, i), evs[i].ins, evs[i].now)
      {
        TimedPrefix(evs, i);
        BooksBalance(s, evs[..i]);
        AtNext(s, evs, i);
        assert StakerCountRight(At(s, evs, i)) && StakerCountRight(At(s, evs, i + 1));
        StepKeepsCount(At(s, evs, i), evs[i].ins, evs[i].now);
      }
    }
  }

  /** In particular on every run that ends with fewer than 2^32 stake accounts, withdrawn ones
      included. */
  lemma {:induction false} FewAccountsNeverFull(s: State, evs: seq<Event>, i: nat)
    requires Genesis(s) && Timed(evs) && i <= |evs| && |Run(s, evs).stakes| < U32_LIMIT
    ensures NeverFull(s, evs, i)
    decreases i
  {
    if i > 0 {
      FewAccountsNeverFull(s, evs, i - 1);
      CountStaysRight(s, evs, i - 1);
      AtNext(s, evs, i - 1);
      FullCounterTakesMany(At(s, evs, i - 1), evs[i - 1].ins, evs[i - 1].now);
      AccountsStay(s, evs, i);
      SubsetSize(At(s, evs, i).stakes.Keys, Run(s, evs).stakes.Keys);
      assert |Run(s, evs).stakes| == |Run(s, evs).stakes.Keys|;
      NeverFullNext(s, evs, i - 1);
    }
  }

  lemma NeverFullNext(s: State, evs: seq<Event>, i: nat)
    requires i < |evs|
    ensures NeverFull(s, evs, i + 1) <==>
      NeverFull(s, evs, i) && !MeetsFullCounter(At(s, evs, i), evs[i].ins, evs[i].now)
  {
  }

  lemma FullCounterTakesMany(b: State, ins: Instruction, now: int)
    requires StakerCountRight(b)
    ensures MeetsFullCounter(b, ins, now) ==> |Step(b, ins, now).stakes.Keys| >= U32_LIMIT
  {
    if MeetsFullCounter(b, ins, now) {
      LiveAtMostAll(b.stakes);
      assert |b.stakes| == |b.stakes.Keys|;
      assert Step(b, ins, now).stakes.Keys == b.stakes.Keys + {ins.owner};
    }
  }

  lemma LiveAtMostAll(stakes: map<Key, StakeAccount>)
    ensures |Live(stakes)| <= |stakes|
  {
    SubsetSize(Live(stakes), stakes.Keys);
  }

  lemma AccountsStay(s: State, evs: seq<Event>, i: nat)
    requires i <= |evs|
    ensures At(s, evs, i).stakes.Keys <= Run(s, evs).stakes.Keys
  {
    assert evs[..|evs|] == evs;
    forall o | o in At(s, evs, i).stakes
      ensures o in Run(s, evs).stakes
    {
      StakesOnlyAge(s, evs, i, |evs|, o);
    }
  }

  /** On every run the saturating subtraction of the staked total never saturates, and that of the
      staker count does not either unless an earlier stake met a full counter. */
  lemma SubtractionsNeverSaturate(s: State, evs: seq<Event>, i: nat)
    requires Genesis(s) && Timed(evs) && Accepted(s, evs, i)
    ensures evs[i].ins.BeginUnstake? ==>
      At(s, evs, i).pool.value.totalStaked >= At(s, evs, i).stakes[evs[i].ins.owner].amount
    ensures evs[i].ins.Withdraw? && NeverFull(s, evs, i) ==> At(s, evs, i).pool.value.totalStakers >= 1
  {
    BooksBalance(s, evs[..i]);
    match evs[i].ins
    case BeginUnstake(owner) => BeginUnstakeKeepsTotal(At(s, evs, i), owner, evs[i].now);
    case Withdraw(owner, destination) =>
      if NeverFull(s, evs, i) {
        CountStaysRight(s, evs, i);
        WithdrawKeepsCount(At(s, evs, i), owner, destination, evs[i].now);
      }
    case _ =>
  }

  // ----- the life cycle of a stake account

  function Rank(status: StakeStatus): nat {
    match status
    case Active => 0
    case Cooldown => 1
    case Withdrawn => 2
  }

  /** `b` is `a`, at the same or a later point of its life. */
  ghost predicate LaterLife(a: StakeAccount, b: StakeAccount) {
    && Rank(a.status) <= Rank(b.status)
    && b.lockupEnd == a.lockupEnd && b.stakedAt == a.stakedAt && b.lockupMultiplier == a.lockupMultiplier
    && b.lastClaimEpoch == a.lastClaimEpoch
    && (b.status != Withdrawn ==> b.amount == a.amount && b.votingPower == a.votingPower)
    && (a.status != Active ==> b.cooldownStart == a.cooldownStart)
    && (a.status == b.status ==> a == b)
  }

  lemma StepAgesStake(s: State, ins: Instruction, now: int, o: Key)
    requires o in s.stakes
    ensures o in Step(s, ins, now).stakes && LaterLife(s.stakes[o], Step(s, ins, now).stakes[o])
  {
  }

  /** A stake account never disappears, only moves forward, and keeps its terms. */
  lemma {:induction false} StakesOnlyAge(s: State, evs: seq<Event>, i: nat, j: nat, o: Key)
    requires i <= j <= |evs| && o in At(s, evs, i).stakes
    ensures o in At(s, evs, j).stakes && LaterLife(At(s, evs, i).stakes[o], At(s, evs, j).stakes[o])
    decreases j
  {
    if i < j {
      StakesOnlyAge(s, evs, i, j - 1, o);
      AtNext(s, evs, j - 1);
      StepAgesStake(At(s, evs, j - 1), evs[j - 1].ins, evs[j - 1].now, o);
    }
  }

  /** An owner stakes at most once on any run. */
  lemma StakesAtMostOnce(s: State, evs: seq<Event>, i: nat, j: nat)
    requires Accepted(s, evs, i) && evs[i].ins.Stake?
    requires Accepted(s, evs, j) && evs[j].ins.Stake?
    requires evs[i].ins.owner == evs[j].ins.owner
    ensures i == j
  {
    if i < j {
      AtNext(s, evs, i);
      StakesOnlyAge(s, evs, i + 1, j, evs[i].ins.owner);
    } else if j < i {
      AtNext(s, evs, j);
      StakesOnlyAge(s, evs, j + 1, i, evs[i].ins.owner);
    }
  }

  lemma NewAccountIsStake(s: State, ins: Instruction, now: int, o: Key)
    requires o !in s.stakes && o in Step(s, ins, now).stakes
    ensures Refusal(s, ins, now).None? && ins.Stake? && ins.owner == o
    ensures Step(s, ins, now).stakes[o] == NewStake(ins.amount, ins.lockup, now, s.pool.value.currentEpoch)
  {
  }

  /** A stake account comes from exactly one accepted stake, whose terms it carries. */
  lemma {:induction false} StakeHasOrigin(s: State, evs: seq<Event>, j: nat, o: Key) returns (i: nat)
    requires Genesis(s) && j <= |evs| && o in At(s, evs, j).stakes
    ensures i < j && Accepted(s, evs, i) && evs[i].ins.Stake? && evs[i].ins.owner == o
    ensures
      var sa := At(s, evs, j).stakes[o];
      && sa.stakedAt == evs[i].now && sa.lockupEnd == evs[i].now + evs[i].ins.lockup
      && At(s, evs, i).pool.Some? && sa.lastClaimEpoch == At(s, evs, i).pool.value.currentEpoch
      && (sa.status != Withdrawn ==> sa.amount == evs[i].ins.amount)
    decreases j
  {
    AtNext(s, evs, j - 1);
    if o in At(s, evs, j - 1).stakes {
      i := StakeHasOrigin(s, evs, j - 1, o);
      StepAgesStake(At(s, evs, j - 1), evs[j - 1].ins, evs[j - 1].now, o);
    } else {
      i := j - 1;
      NewAccountIsStake(At(s, evs, i), evs[i].ins, evs[i].now, o);
    }
  }

  lemma VaultFallsOnlyByWithdraw(s: State, ins: Instruction, now: int, o: Key)
    requires Vault(o) in s.tokens && VaultsCover(s)
    ensures
      var f := Step(s, ins, now);
      && Vault(o) in f.tokens
      && (f.tokens[Vault(o)] < s.tokens[Vault(o)] ==>
            && Refusal(s, ins, now).None? && ins.Withdraw? && ins.owner == o
            && s.tokens[Vault(o)] - f.tokens[Vault(o)] == s.stakes[o].amount)
  {
  }

  /** The only outflow from a vault is its owner's one withdrawal, of exactly the staked amount, no
      earlier than the lockup and the three-day cooldown after staking. */
  lemma OnlyOutflow(s: State, evs: seq<Event>, j: nat, o: Key) returns (i: nat)
    requires Genesis(s) && Timed(evs) && j < |evs| && Vault(o) in At(s, evs, j).tokens
    requires Vault(o) in At(s, evs, j + 1).tokens ==>
      At(s, evs, j + 1).tokens[Vault(o)] < At(s, evs, j).tokens[Vault(o)]
    ensures Vault(o) in At(s, evs, j + 1).tokens
    ensures Accepted(s, evs, j) && evs[j].ins.Withdraw? && evs[j].ins.owner == o
    ensures i < j && Accepted(s, evs, i) && evs[i].ins.Stake? && evs[i].ins.owner == o
    ensures At(s, evs, j).tokens[Vault(o)] - At(s, evs, j + 1).tokens[Vault(o)] == evs[i].ins.amount
    ensures evs[j].now >= evs[i].now + evs[i].ins.lockup + COOLDOWN_SECS
    ensures evs[j].now >= evs[i].now + MIN_LOCKUP_SECS + COOLDOWN_SECS
  {
    BooksBalance(s, evs[..j]);
    AtNext(s, evs, j);
    var before := At(s, evs, j);
    VaultFallsOnlyByWithdraw(before, evs[j].ins, evs[j].now, o);
    i := StakeHasOrigin(s, evs, j, o);
    assert AccountShape(before.stakes[o]);
  }

  /** Nobody withdraws twice. */
  lemma WithdrawsAtMostOnce(s: State, evs: seq<Event>, i: nat, j: nat)
    requires Accepted(s, evs, i) && evs[i].ins.Withdraw?
    requires Accepted(s, evs, j) && evs[j].ins.Withdraw?
    requires evs[i].ins.owner == evs[j].ins.owner
    ensures i == j
  {
    if i < j {
      AtNext(s, evs, i);
      StakesOnlyAge(s, evs, i + 1, j, evs[i].ins.owner);
    } else if j < i {
      AtNext(s, evs, j);
      StakesOnlyAge(s, evs, j + 1, i, evs[i].ins.owner);
    }
  }

  /** Until withdrawal, voting power is the capped product of the amount and the multiplier of the
      agreed lockup, in every reachable state. */
  lemma VotingPowerAlwaysRight(s: State, evs: seq<Event>, o: Key)
    requires Genesis(s) && Timed(evs) && o in Run(s, evs).stakes
    ensures
      var sa := Run(s, evs).stakes[o];
      sa.votingPower ==
        if sa.status == Withdrawn then 0
        else Min(U64_LIMIT - 1, sa.amount * ComputeMultiplier(sa.lockupEnd - sa.stakedAt))
  {
    BooksBalance(s, evs);
    assert AccountShape(Run(s, evs).stakes[o]);
  }

  /** On every run, once an account is cooling down, its withdrawal is open from the end of the
      cooldown until it is made, whatever else happens, closing the pool included. */
  lemma CooldownAlwaysPaysOut(s: State, evs: seq<Event>, i: nat, j: nat, o: Key, destination: TokenAccount, now: int)
    requires Genesis(s) && Timed(evs) && i <= j <= |evs|
    requires o in At(s, evs, i).stakes && At(s, evs, i).stakes[o].status == Cooldown
    requires destination in At(s, evs, j).tokens
    requires now >= At(s, evs, i).stakes[o].cooldownStart + COOLDOWN_SECS
    ensures o in At(s, evs, j).stakes
    ensures At(s, evs, j).stakes[o].status != Withdrawn ==>
      Refusal(At(s, evs, j), Withdraw(o, destination), now).None?
  {
    StakesOnlyAge(s, evs, i, j, o);
    BooksBalance(s, evs[..j]);
    if At(s, evs, j).stakes[o].status == Cooldown {
      WithdrawEnabled(At(s, evs, j), o, destination, now);
    }
  }

  // ----- who may do what

  /** The signer whom an administrative instruction needs. */
  function AdminSigner(ins: Instruction): Option<Key> {
    match ins
    case InitGuard(signer, _) => Some(signer)
    case SetAllowedCallers(signer, _) => Some(signer)
    case ProposeGuardReset(signer) => Some(signer)
    case AdminResetGuard(signer) => Some(signer)
    case InitPool(signer, _, _) => Some(signer)
    case FreezeDeposits(signer) => Some(signer)
    case UnfreezeDeposits(signer) => Some(signer)
    case ClosePool(signer) => Some(signer)
    case SnapshotEpoch(signer, _, _) => Some(signer)
    case _ => None
  }

  /** A pool only exists under a config, and under the same authority. */
  ghost predicate OneAuthority(s: State) {
    s.pool.Some? ==> s.config.Some? && s.pool.value.authority == s.config.value
  }

  lemma StepKeepsAuthority(s: State, ins: Instruction, now: int)
    requires OneAuthority(s)
    ensures OneAuthority(Step(s, ins, now))
    ensures s.config.Some? ==> Step(s, ins, now).config == s.config
    ensures s.config.None? && Step(s, ins, now).config.Some? ==>
      Refusal(s, ins, now).None? && ins.Initialize? && Step(s, ins, now).config == Some(ins.authority)
  {
  }

  lemma {:induction false} AuthorityHasOrigin(s: State, evs: seq<Event>, j: nat) returns (i: nat)
    requires Genesis(s) && j <= |evs|
    ensures OneAuthority(At(s, evs, j))
    ensures At(s, evs, j).config.Some? ==>
      && i < j && Accepted(s, evs, i) && evs[i].ins.Initialize?
      && At(s, evs, j).config == Some(evs[i].ins.authority)
    decreases j
  {
    i := 0;
    if j > 0 {
      i := AuthorityHasOrigin(s, evs, j - 1);
      AtNext(s, evs, j - 1);
      StepKeepsAuthority(At(s, evs, j - 1), evs[j - 1].ins, evs[j - 1].now);
      if At(s, evs, j - 1).config.None? {
        i := j - 1;
      }
    }
  }

  /** On every run the authority named by the one accepted initialisation is the only signer whose
      administrative instructions are ever accepted. */
  lemma OnlyAuthorityAdministers(s: State, evs: seq<Event>, j: nat) returns (i: nat)
    requires Genesis(s) && Accepted(s, evs, j) && AdminSigner(evs[j].ins).Some?
    ensures i < j && Accepted(s, evs, i) && evs[i].ins.Initialize?
    ensures AdminSigner(evs[j].ins) == Some(evs[i].ins.authority)
  {
    i := AuthorityHasOrigin(s, evs, j);
  }

  // ----- freezing and closing

  /** Event i is the freeze that is still in force before event j: nothing after it unfroze the
      pool or got a stake in. */
  ghost predicate FrozenSince(s: State, evs: seq<Event>, i: nat, j: nat) {
    && i < j <= |evs|
    && Accepted(s, evs, i) && evs[i].ins.FreezeDeposits?
    && forall k :: i < k < j && Accepted(s, evs, k) ==>
         !evs[k].ins.UnfreezeDeposits? && !evs[k].ins.FreezeDeposits? && !evs[k].ins.Stake?
  }

  ghost predicate Frozen(s: State) {
    s.pool.Some? && s.pool.value.pauseNewStakes
  }

  lemma StepToFrozen(s: State, ins: Instruction, now: int)
    requires Frozen(Step(s, ins, now))
    ensures
      var f := Step(s, ins, now);
      if Frozen(s) then
        && f.pool.value.pauseNewStakesAt == s.pool.value.pauseNewStakesAt
        && (Refusal(s, ins, now).None? ==> !ins.UnfreezeDeposits? && !ins.FreezeDeposits? && !ins.Stake?)
      else
        Refusal(s, ins, now).None? && ins.FreezeDeposits? && f.pool.value.pauseNewStakesAt == now
  {
  }

  lemma {:induction false} FreezeInForce(s: State, evs: seq<Event>, j: nat) returns (i: nat)
    requires Genesis(s) && j <= |evs| && Frozen(At(s, evs, j))
    ensures FrozenSince(s, evs, i, j) && At(s, evs, j).pool.value.pauseNewStakesAt == evs[i].now
    decreases j
  {
    AtNext(s, evs, j - 1);
    StepToFrozen(At(s, evs, j - 1), evs[j - 1].ins, evs[j - 1].now);
    if Frozen(At(s, evs, j - 1)) {
      i := FreezeInForce(s, evs, j - 1);
    } else {
      i := j - 1;
    }
  }

  /** A pool with stake outstanding is only ever closed 180 days or more after a freeze that no
      unfreeze and no stake has followed. */
  lemma CloseWaitsForMigration(s: State, evs: seq<Event>, j: nat) returns (i: nat)
    requires Genesis(s) && Timed(evs)
    requires Accepted(s, evs, j) && evs[j].ins.ClosePool?
    requires At(s, evs, j).pool.value.totalStaked > 0
    ensures FrozenSince(s, evs, i, j) && evs[i].now + MIGRATION_WINDOW_SECS <= evs[j].now
  {
    i := FreezeInForce(s, evs, j);
  }

  ghost predicate Closed(s: State) {
    s.pool.Some? && s.pool.value.closed
  }

  /** What closing freezes for good. */
  ghost predicate SameAfterClose(a: State, b: State) {
    && Closed(a) && Closed(b)
    && b.pool.value.closedAt == a.pool.value.closedAt
    && b.pool.value.totalStaked == a.pool.value.totalStaked
    && b.pool.value.currentEpoch == a.pool.value.currentEpoch
    && b.snapshots == a.snapshots
    && b.stakes.Keys == a.stakes.Keys
    && forall o :: o in a.stakes && a.stakes[o].status == Active ==> b.stakes[o] == a.stakes[o]
  }

  lemma StepAfterClose(s: State, ins: Instruction, now: int)
    requires Closed(s)
    ensures SameAfterClose(s, Step(s, ins, now))
  {
  }

  /** Once closed, closing time, staked total, epoch, snapshots and every active account stay as
      they are for the rest of the run. */
  lemma {:induction false} ClosedIsFinal(s: State, evs: seq<Event>, i: nat, j: nat)
    requires i <= j <= |evs| && Closed(At(s, evs, i))
    ensures SameAfterClose(At(s, evs, i), At(s, evs, j))
    decreases j
  {
    if i < j {
      ClosedIsFinal(s, evs, i, j - 1);
      AtNext(s, evs, j - 1);
      StepAfterClose(At(s, evs, j - 1), evs[j - 1].ins, evs[j - 1].now);
    }
  }

  /** Consequently an account still active at the close never gets its tokens out again. */
  lemma ActiveAtCloseNeverPaid(s: State, evs: seq<Event>, i: nat, j: nat, o: Key)
    requires i <= j < |evs| && Closed(At(s, evs, i))
    requires o in At(s, evs, i).stakes && At(s, evs, i).stakes[o].status == Active
    requires evs[j].ins.Withdraw? && evs[j].ins.owner == o
    ensures !Accepted(s, evs, j)
  {
    ClosedIsFinal(s, evs, i, j);
  }

  // ----- epochs

  lemma EpochStartMoves(s: State, ins: Instruction, now: int, began: int)
    requires s.pool.Some?
    requires s.pool.value.epochStart >= began + s.pool.value.currentEpoch * s.pool.value.epochDuration
    ensures
      var f := Step(s, ins, now);
      && f.pool.Some? && f.pool.value.epochDuration == s.pool.value.epochDuration
      && f.pool.value.epochStart >= began + f.pool.value.currentEpoch * f.pool.value.epochDuration
  {
    var e, d := s.pool.value.currentEpoch, s.pool.value.epochDuration;
    assert (e + 1) * d == e * d + d;
  }

  /** Epochs cannot run fast: after the accepted initialisation at event i, the current epoch's
      start is at least as many epoch durations later as epochs have passed. */
  lemma {:induction false} EpochsKeepPace(s: State, evs: seq<Event>, i: nat, j: nat)
    requires i < j <= |evs| && Accepted(s, evs, i) && evs[i].ins.InitPool?
    ensures
      var f := At(s, evs, j);
      && f.pool.Some? && f.pool.value.epochDuration == evs[i].ins.epochDuration
      && f.pool.value.epochStart >= evs[i].now + f.pool.value.currentEpoch * f.pool.value.epochDuration
    decreases j
  {
    AtNext(s, evs, j - 1);
    if i < j - 1 {
      EpochsKeepPace(s, evs, i, j - 1);
      EpochStartMoves(At(s, evs, j - 1), evs[j - 1].ins, evs[j - 1].now, evs[i].now);
    }
  }

  /** Snapshots are taken for epochs 0, 1, 2, ... without gaps, each an epoch duration or more after
      the one before, and the account for the next is always free. */
  lemma SnapshotsSpaced(s: State, evs: seq<Event>, e: nat)
    requires Genesis(s) && Timed(evs) && Run(s, evs).pool.Some?
    ensures e in Run(s, evs).snapshots <==> e < Run(s, evs).pool.value.currentEpoch
    ensures e + 1 in Run(s, evs).snapshots ==>
      && e in Run(s, evs).snapshots
      && Run(s, evs).snapshots[e + 1].time >= Run(s, evs).snapshots[e].time + Run(s, evs).pool.value.epochDuration
  {
    BooksBalance(s, evs);
  }

  // ----- guard resets

  /** Event i is the latest accepted proposal before event j, with no reset between them. */
  ghost predicate LatestProposal(s: State, evs: seq<Event>, i: nat, j: nat) {
    && i < j <= |evs|
    && Accepted(s, evs, i) && evs[i].ins.ProposeGuardReset?
    && forall k :: i < k < j && Accepted(s, evs, k) ==>
         !evs[k].ins.ProposeGuardReset? && !evs[k].ins.AdminResetGuard?
  }

  ghost predicate Proposed(s: State) {
    s.guard.Some? && s.guard.value.resetProposedAt != 0
  }

  lemma StepToProposed(s: State, ins: Instruction, now: int)
    requires Proposed(Step(s, ins, now))
    ensures
      var f := Step(s, ins, now);
      if Refusal(s, ins, now).None? && ins.ProposeGuardReset? then f.guard.value.resetProposedAt == now
      else
        && Proposed(s) && f.guard.value.resetProposedAt == s.guard.value.resetProposedAt
        && (Refusal(s, ins, now).None? ==> !ins.AdminResetGuard?)
  {
  }

  lemma {:induction false} ProposalInForce(s: State, evs: seq<Event>, j: nat) returns (i: nat)
    requires Genesis(s) && j <= |evs| && Proposed(At(s, evs, j))
    ensures LatestProposal(s, evs, i, j) && At(s, evs, j).guard.value.resetProposedAt == evs[i].now
    decreases j
  {
    AtNext(s, evs, j - 1);
    StepToProposed(At(s, evs, j - 1), evs[j - 1].ins, evs[j - 1].now);
    if Accepted(s, evs, j - 1) && evs[j - 1].ins.ProposeGuardReset? {
      i := j - 1;
    } else {
      i := ProposalInForce(s, evs, j - 1);
    }
  }

  /** Every accepted reset follows the latest proposal by at least 24 hours. */
  lemma ResetFollowsProposal(s: State, evs: seq<Event>, j: nat) returns (i: nat)
    requires Genesis(s) && Timed(evs) && Accepted(s, evs, j) && evs[j].ins.AdminResetGuard?
    ensures LatestProposal(s, evs, i, j) && evs[j].now >= evs[i].now + ADMIN_RESET_TIMELOCK_SECS
  {
    i := ProposalInForce(s, evs, j);
  }

  /** So two accepted resets are at least 24 hours apart. */
  lemma ResetsSpaced(s: State, evs: seq<Event>, i: nat, j: nat)
    requires Genesis(s) && Timed(evs) && i < j
    requires Accepted(s, evs, i) && evs[i].ins.AdminResetGuard?
    requires Accepted(s, evs, j) && evs[j].ins.AdminResetGuard?
    ensures evs[j].now >= evs[i].now + ADMIN_RESET_TIMELOCK_SECS
  {
    var k := ResetFollowsProposal(s, evs, j);
    assert k > i || k < i;
  }
}
