/** What every instruction of the staking program keeps: the pool's totals agree with the stake
    accounts, vaults cover their accounts, tokens are conserved, snapshots are numbered without
    gaps, and every stake account has the shape its life cycle allows. */
module StakingInvariants {
  import opened Wrappers
  import opened Bytes
  import opened Sums
  import opened StakingModel

  // ----- what the pool's counters should be

  ghost function ActiveAmounts(stakes: map<Key, StakeAccount>): map<Key, nat> {
    map o | o in stakes && stakes[o].status == Active :: stakes[o].amount
  }

  function Live(stakes: map<Key, StakeAccount>): set<Key> {
    set o | o in stakes && stakes[o].status != Withdrawn
  }

  ghost predicate StakedTotalRight(s: State) {
    s.pool.Some? ==> s.pool.value.totalStaked == Total(ActiveAmounts(s.stakes)) < U64_LIMIT
  }

  ghost predicate StakerCountRight(s: State) {
    s.pool.Some? ==> s.pool.value.totalStakers == |Live(s.stakes)| < U32_LIMIT
  }

  /** An accepted stake that arrives when the 32-bit staker counter is full. */
  ghost predicate MeetsFullCounter(s: State, ins: Instruction, now: int) {
    Refusal(s, ins, now).None? && ins.Stake? && s.pool.value.totalStakers == U32_LIMIT - 1
  }

  // ----- custody

  ghost predicate VaultsCover(s: State) {
    && (forall o :: Vault(o) in s.tokens <==> o in s.stakes)
    && (forall o :: o in s.stakes ==> s.tokens[Vault(o)] >= s.stakes[o].amount)
  }

  ghost predicate VaultsExact(s: State) {
    forall o :: o in s.stakes && Vault(o) in s.tokens ==> s.tokens[Vault(o)] == s.stakes[o].amount
  }

  // ----- shape of one stake account

  ghost predicate AccountShape(sa: StakeAccount) {
    && MIN_LOCKUP_SECS <= sa.lockupEnd - sa.stakedAt <= MAX_LOCKUP_SECS
    && FitsI64(sa.lockupEnd)
    && sa.lockupMultiplier == ComputeMultiplier(sa.lockupEnd - sa.stakedAt)
    && (match sa.status
        case Active => sa.amount > 0
        case Cooldown => sa.amount > 0 && sa.cooldownStart >= sa.lockupEnd && FitsI64(sa.cooldownStart + COOLDOWN_SECS)
        case Withdrawn => sa.amount == 0 && sa.votingPower == 0 && sa.cooldownStart >= sa.lockupEnd)
    && (sa.status != Withdrawn ==>
          sa.votingPower == Min(U64_LIMIT - 1, sa.amount * ComputeMultiplier(sa.lockupEnd - sa.stakedAt)))
  }

  ghost predicate ShapesRight(s: State) {
    forall o :: o in s.stakes ==> AccountShape(s.stakes[o])
  }

  // ----- snapshots

  /** Snapshots exist for exactly the epochs already left, one epoch duration or more apart. */
  ghost predicate SnapshotsRight(s: State) {
    if s.pool.None? then s.snapshots == map[]
    else
      var p := s.pool.value;
      && (forall e :: e in s.snapshots <==> 0 <= e < p.currentEpoch)
      && (forall e :: e in s.snapshots ==> s.snapshots[e].epoch == e)
      && (forall e :: e in s.snapshots && e + 1 in s.snapshots ==>
            s.snapshots[e + 1].time >= s.snapshots[e].time + p.epochDuration)
      && (p.currentEpoch > 0 ==> p.epochStart == s.snapshots[p.currentEpoch - 1].time)
  }

  // ----- the guard's accounts

  ghost predicate CallersRight(s: State) {
    && (s.guard.Some? <==> s.callers.Some?)
    && (s.callers.Some? ==> CallersAllowed(s.callers.value))
  }

  ghost predicate Inv(s: State) {
    && (s.pool.None? ==> s.stakes == map[])
    && StakedTotalRight(s)
    && VaultsCover(s)
    && ShapesRight(s)
    && SnapshotsRight(s)
    && CallersRight(s)
  }

  // ----- preservation: the staked total

  lemma StakeKeepsTotal(s: State, owner: Key, source: Key, amount: nat, lockup: int, now: int)
    requires StakedTotalRight(s) && StakeRefusal(s, owner, source, amount, lockup, now).None?
    ensures StakedTotalRight(StakeEffect(s, owner, source, amount, lockup, now))
  {
    var f := StakeEffect(s, owner, source, amount, lockup, now);
    assert ActiveAmounts(f.stakes) == ActiveAmounts(s.stakes)[owner := amount];
    TotalInsert(ActiveAmounts(s.stakes), owner, amount);
  }

  /** Leaving the active state takes the account's amount out of the total, exactly: the saturating
      subtraction does not saturate. */
  lemma BeginUnstakeKeepsTotal(s: State, owner: Key, now: int)
    requires StakedTotalRight(s) && BeginUnstakeRefusal(s, owner, now).None?
    ensures s.pool.value.totalStaked >= s.stakes[owner].amount
    ensures StakedTotalRight(BeginUnstakeEffect(s, owner, now))
  {
    var f := BeginUnstakeEffect(s, owner, now);
    assert ActiveAmounts(s.stakes)[owner] == s.stakes[owner].amount;
    TotalRemove(ActiveAmounts(s.stakes), owner);
    assert ActiveAmounts(f.stakes) == ActiveAmounts(s.stakes) - {owner};
  }

  lemma WithdrawKeepsTotal(s: State, owner: Key, destination: TokenAccount, now: int)
    requires StakedTotalRight(s) && WithdrawRefusal(s, owner, destination, now).None?
    ensures StakedTotalRight(WithdrawEffect(s, owner, destination, now))
  {
    var f := WithdrawEffect(s, owner, destination, now);
    assert ActiveAmounts(f.stakes) == ActiveAmounts(s.stakes);
  }

  // ----- preservation: the staker count

  lemma NewAccountLive(stakes: map<Key, StakeAccount>, owner: Key, sa: StakeAccount)
    requires owner !in stakes && sa.status != Withdrawn
    ensures Live(stakes[owner := sa]) == Live(stakes) + {owner}
  {
  }

  lemma NewAccountCounted(stakes: map<Key, StakeAccount>, owner: Key, sa: StakeAccount)
    requires owner !in stakes && sa.status != Withdrawn
    ensures |stakes[owner := sa]| == |stakes| + 1 && |Live(stakes[owner := sa])| == |Live(stakes)| + 1
  {
    NewAccountLive(stakes, owner, sa);
    assert owner !in Live(stakes);
    assert stakes[owner := sa].Keys == stakes.Keys + {owner};
  }

  /** While the count is right, an accepted stake keeps it right exactly when the counter is not
      full. */
  lemma StakeKeepsCount(s: State, owner: Key, source: Key, amount: nat, lockup: int, now: int)
    requires StakerCountRight(s) && StakeRefusal(s, owner, source, amount, lockup, now).None?
    ensures StakerCountRight(StakeEffect(s, owner, source, amount, lockup, now)) <==>
      s.pool.value.totalStakers != U32_LIMIT - 1
  {
    NewAccountCounted(s.stakes, owner, NewStake(amount, lockup, now, s.pool.value.currentEpoch));
  }

  /** While the count is right, its decrement does not saturate and keeps it right. */
  lemma WithdrawKeepsCount(s: State, owner: Key, destination: TokenAccount, now: int)
    requires StakerCountRight(s) && WithdrawRefusal(s, owner, destination, now).None?
    ensures s.pool.value.totalStakers >= 1
    ensures StakerCountRight(WithdrawEffect(s, owner, destination, now))
  {
    var f := WithdrawEffect(s, owner, destination, now);
    assert owner in Live(s.stakes);
    assert Live(f.stakes) == Live(s.stakes) - {owner};
  }

  lemma BeginUnstakeKeepsCount(s: State, owner: Key, now: int)
    requires StakerCountRight(s) && BeginUnstakeRefusal(s, owner, now).None?
    ensures StakerCountRight(BeginUnstakeEffect(s, owner, now))
  {
    assert Live(BeginUnstakeEffect(s, owner, now).stakes) == Live(s.stakes);
  }

  /** One step of anything keeps a right staker count right exactly when it is not an accepted stake
      that meets a full counter. */
  lemma StepKeepsCount(s: State, ins: Instruction, now: int)
    requires (s.pool.None? ==> s.stakes == map[]) && StakerCountRight(s)
    ensures StakerCountRight(Step(s, ins, now)) <==> !MeetsFullCounter(s, ins, now)
  {
    if Refusal(s, ins, now).None? {
      match ins
      case Stake(owner, source, amount, lockup) => StakeKeepsCount(s, owner, source, amount, lockup, now);
      case BeginUnstake(owner) => BeginUnstakeKeepsCount(s, owner, now);
      case Withdraw(owner, destination) => WithdrawKeepsCount(s, owner, destination, now);
      case InitPool(_, _, _) =>
        assert Live(s.stakes) == {};
      case _ =>
    }
  }

  // ----- preservation: one step of anything

  lemma StepKeepsTotal(s: State, ins: Instruction, now: int)
    requires (s.pool.None? ==> s.stakes == map[]) && StakedTotalRight(s)
    ensures
      var f := Step(s, ins, now);
      (f.pool.None? ==> f.stakes == map[]) && StakedTotalRight(f)
  {
    if Refusal(s, ins, now).None? {
      match ins
      case Stake(owner, source, amount, lockup) => StakeKeepsTotal(s, owner, source, amount, lockup, now);
      case BeginUnstake(owner) => BeginUnstakeKeepsTotal(s, owner, now);
      case Withdraw(owner, destination) => WithdrawKeepsTotal(s, owner, destination, now);
      case InitPool(_, _, _) =>
        assert ActiveAmounts(s.stakes) == map[];
      case _ =>
    }
  }

  lemma StakeKeepsVaults(s: State, owner: Key, source: Key, amount: nat, lockup: int, now: int)
    requires VaultsCover(s) && StakeRefusal(s, owner, source, amount, lockup, now).None?
    ensures VaultsCover(StakeEffect(s, owner, source, amount, lockup, now))
  {
    var f := StakeEffect(s, owner, source, amount, lockup, now);
    forall o | o in f.stakes
      ensures f.tokens[Vault(o)] >= f.stakes[o].amount
    {
    }
  }

  lemma WithdrawKeepsVaults(s: State, owner: Key, destination: TokenAccount, now: int)
    requires VaultsCover(s) && WithdrawRefusal(s, owner, destination, now).None?
    ensures VaultsCover(WithdrawEffect(s, owner, destination, now))
  {
    var f := WithdrawEffect(s, owner, destination, now);
    forall o | o in f.stakes
      ensures f.tokens[Vault(o)] >= f.stakes[o].amount
    {
    }
  }

  lemma StepKeepsVaults(s: State, ins: Instruction, now: int)
    requires VaultsCover(s)
    ensures VaultsCover(Step(s, ins, now))
  {
    if Refusal(s, ins, now).None? {
      match ins
      case Stake(owner, source, amount, lockup) => StakeKeepsVaults(s, owner, source, amount, lockup, now);
      case Withdraw(owner, destination) => WithdrawKeepsVaults(s, owner, destination, now);
      case _ =>
    }
  }

  lemma StakeHasShape(amount: nat, lockup: int, now: int, epoch: nat)
    requires amount > 0 && MIN_LOCKUP_SECS <= lockup <= MAX_LOCKUP_SECS && FitsI64(now + lockup)
    ensures AccountShape(NewStake(amount, lockup, now, epoch))
  {
  }

  lemma StepKeepsShape(s: State, ins: Instruction, now: int, o: Key)
    requires o in s.stakes && AccountShape(s.stakes[o]) && FitsI64(now)
    ensures o in Step(s, ins, now).stakes && AccountShape(Step(s, ins, now).stakes[o])
  {
    if Refusal(s, ins, now).None? {
      match ins
      case BeginUnstake(owner) =>
      case Withdraw(owner, destination) =>
      case _ =>
        assert Step(s, ins, now).stakes[o] == s.stakes[o];
    }
  }

  lemma StepKeepsShapes(s: State, ins: Instruction, now: int)
    requires ShapesRight(s) && FitsI64(now)
    ensures ShapesRight(Step(s, ins, now))
  {
    var f := Step(s, ins, now);
    forall o | o in f.stakes
      ensures AccountShape(f.stakes[o])
    {
      if o in s.stakes {
        StepKeepsShape(s, ins, now, o);
      } else {
        StakeHasShape(ins.amount, ins.lockup, now, s.pool.value.currentEpoch);
      }
    }
  }

  lemma SnapshotKeepsSnapshots(s: State, signer: Key, power: nat, count: nat, now: int)
    requires SnapshotsRight(s) && SnapshotRefusal(s, signer, now).None?
    ensures SnapshotsRight(SnapshotEffect(s, signer, power, count, now))
  {
    var f, p := SnapshotEffect(s, signer, power, count, now), s.pool.value;
    forall e | e in f.snapshots && e + 1 in f.snapshots
      ensures f.snapshots[e + 1].time >= f.snapshots[e].time + p.epochDuration
    {
      if e + 1 < p.currentEpoch {
        assert e in s.snapshots && e + 1 in s.snapshots;
      }
    }
  }

  lemma SnapshotsFollowEpochs(s: State, f: State)
    requires SnapshotsRight(s) && f.snapshots == s.snapshots
    requires s.pool.Some? && f.pool.Some?
    requires f.pool.value.currentEpoch == s.pool.value.currentEpoch
    requires f.pool.value.epochDuration == s.pool.value.epochDuration
    requires f.pool.value.epochStart == s.pool.value.epochStart
    ensures SnapshotsRight(f)
  {
  }

  lemma StepKeepsSnapshots(s: State, ins: Instruction, now: int)
    requires SnapshotsRight(s)
    ensures SnapshotsRight(Step(s, ins, now))
  {
    if Refusal(s, ins, now).None? {
      match ins
      case SnapshotEpoch(signer, power, count) => SnapshotKeepsSnapshots(s, signer, power, count, now);
      case InitPool(_, _, _) =>
      case _ =>
        if s.pool.Some? {
          SnapshotsFollowEpochs(s, Step(s, ins, now));
        }
    }
  }

  lemma StepKeepsCallers(s: State, ins: Instruction, now: int)
    requires CallersRight(s)
    ensures CallersRight(Step(s, ins, now))
  {
  }

  /** The invariant, kept by every instruction, accepted or not. */
  lemma StepKeepsInv(s: State, ins: Instruction, now: int)
    requires Inv(s) && FitsI64(now)
    ensures Inv(Step(s, ins, now))
  {
    StepKeepsTotal(s, ins, now);
    StepKeepsVaults(s, ins, now);
    StepKeepsShapes(s, ins, now);
    StepKeepsSnapshots(s, ins, now);
    StepKeepsCallers(s, ins, now);
  }

  // ----- conservation

  lemma MoveConserves(tokens: map<TokenAccount, nat>, from: TokenAccount, to: TokenAccount, amount: nat)
    requires from in tokens && to in tokens && tokens[from] >= amount
    ensures Total(Move(tokens, from, to, amount)) == Total(tokens)
  {
    TotalTransfer(tokens, tokens[from := tokens[from] - amount], Move(tokens, from, to, amount), from, to, amount);
  }

  lemma StakeConserves(s: State, owner: Key, source: Key, amount: nat, lockup: int, now: int)
    requires StakeRefusal(s, owner, source, amount, lockup, now).None?
    ensures Total(StakeEffect(s, owner, source, amount, lockup, now).tokens) == Total(s.tokens)
  {
    TotalInsert(s.tokens, Vault(owner), 0);
    MoveConserves(s.tokens[Vault(owner) := 0], Wallet(source), Vault(owner), amount);
  }

  /** No instruction creates or destroys tokens. */
  lemma StepConservesTokens(s: State, ins: Instruction, now: int)
    ensures Total(Step(s, ins, now).tokens) == Total(s.tokens)
  {
    if Refusal(s, ins, now).None? {
      match ins
      case Stake(owner, source, amount, lockup) => StakeConserves(s, owner, source, amount, lockup, now);
      case Withdraw(owner, destination) => MoveConserves(s.tokens, Vault(owner), destination, s.stakes[owner].amount);
      case OutsideTransfer(from, to, amount) => MoveConserves(s.tokens, Wallet(from), to, amount);
      case _ =>
    }
  }

  /** The instruction is accepted and sends tokens into a vault. */
  ghost predicate PaysVault(s: State, ins: Instruction, now: int) {
    && Refusal(s, ins, now).None?
    && match ins
       case Withdraw(_, destination) => destination.Vault?
       case OutsideTransfer(_, to, amount) => to.Vault? && amount > 0
       case _ => false
  }

  /** What a vault holds beyond its account's amount. */
  function Surplus(s: State, o: Key): int
    requires o in s.stakes && Vault(o) in s.tokens
  {
    s.tokens[Vault(o)] - s.stakes[o].amount
  }

  lemma StakeKeepsSurplus(s: State, owner: Key, source: Key, amount: nat, lockup: int, now: int, o: Key)
    requires VaultsCover(s) && StakeRefusal(s, owner, source, amount, lockup, now).None?
    requires o in s.stakes || o == owner
    ensures
      var f := StakeEffect(s, owner, source, amount, lockup, now);
      && o in f.stakes && Vault(o) in f.tokens
      && Surplus(f, o) == if o == owner then 0 else Surplus(s, o)
  {
  }

  /** A withdrawal leaves every surplus alone, except that one into a vault adds its amount there. */
  lemma WithdrawKeepsSurplus(s: State, owner: Key, destination: TokenAccount, now: int, o: Key)
    requires VaultsCover(s) && WithdrawRefusal(s, owner, destination, now).None? && o in s.stakes
    ensures
      var f := WithdrawEffect(s, owner, destination, now);
      && o in f.stakes && Vault(o) in f.tokens
      && Surplus(f, o) == Surplus(s, o) + if destination == Vault(o) then s.stakes[owner].amount else 0
  {
  }

  lemma TransferKeepsSurplus(s: State, from: Key, to: TokenAccount, amount: nat, now: int, o: Key)
    requires VaultsCover(s) && Refusal(s, OutsideTransfer(from, to, amount), now).None? && o in s.stakes
    ensures
      var f := Step(s, OutsideTransfer(from, to, amount), now);
      && o in f.stakes && Vault(o) in f.tokens
      && Surplus(f, o) == Surplus(s, o) + if to == Vault(o) then amount else 0
  {
  }

  /** No instruction ever reduces the surplus of a vault. */
  lemma SurplusNeverShrinks(s: State, ins: Instruction, now: int, o: Key)
    requires VaultsCover(s) && o in s.stakes
    ensures
      var f := Step(s, ins, now);
      o in f.stakes && Vault(o) in f.tokens && Surplus(f, o) >= Surplus(s, o)
  {
    if Refusal(s, ins, now).None? {
      match ins
      case Stake(owner, source, amount, lockup) => StakeKeepsSurplus(s, owner, source, amount, lockup, now, o);
      case Withdraw(owner, destination) => WithdrawKeepsSurplus(s, owner, destination, now, o);
      case OutsideTransfer(from, to, amount) => TransferKeepsSurplus(s, from, to, amount, now, o);
      case _ =>
    }
  }

  lemma InexactStays(s: State, ins: Instruction, now: int)
    requires VaultsCover(s) && !VaultsExact(s)
    ensures !VaultsExact(Step(s, ins, now))
  {
    var o :| o in s.stakes && Vault(o) in s.tokens && s.tokens[Vault(o)] != s.stakes[o].amount;
    SurplusNeverShrinks(s, ins, now, o);
  }

  lemma StepKeepsVaultsExact(s: State, ins: Instruction, now: int)
    requires VaultsCover(s) && VaultsExact(s) && !PaysVault(s, ins, now)
    ensures VaultsExact(Step(s, ins, now))
  {
    var f := Step(s, ins, now);
    if Refusal(s, ins, now).None? {
      forall o | o in f.stakes && Vault(o) in f.tokens
        ensures Surplus(f, o) == 0
      {
        match ins
        case Stake(owner, source, amount, lockup) => StakeKeepsSurplus(s, owner, source, amount, lockup, now, o);
        case Withdraw(owner, destination) => WithdrawKeepsSurplus(s, owner, destination, now, o);
        case OutsideTransfer(from, to, amount) => TransferKeepsSurplus(s, from, to, amount, now, o);
        case _ =>
      }
    }
  }

  lemma PayingVaultLeavesSurplus(s: State, ins: Instruction, now: int)
    requires VaultsCover(s) && ShapesRight(s) && PaysVault(s, ins, now)
    ensures !VaultsExact(Step(s, ins, now))
  {
    match ins
    case Withdraw(owner, destination) =>
      assert AccountShape(s.stakes[owner]);
      WithdrawKeepsSurplus(s, owner, destination, now, destination.owner);
    case OutsideTransfer(from, to, amount) => TransferKeepsSurplus(s, from, to, amount, now, to.owner);
  }

  /** Exact vaults stay exact in a step exactly when it does not pay into a vault, and vaults that
      are not exact never become so. */
  lemma StepVaultsExactly(s: State, ins: Instruction, now: int)
    requires VaultsCover(s) && ShapesRight(s)
    ensures VaultsExact(Step(s, ins, now)) <==> VaultsExact(s) && !PaysVault(s, ins, now)
  {
    if !VaultsExact(s) {
      InexactStays(s, ins, now);
    } else if PaysVault(s, ins, now) {
      PayingVaultLeavesSurplus(s, ins, now);
    } else {
      StepKeepsVaultsExact(s, ins, now);
    }
  }

  // ----- liveness of withdrawals

  /** A cooled-down account can always be withdrawn, to any token account, also after the pool is
      closed: no check on the pool stands in the way and the vault has the money. */
  lemma WithdrawEnabled(s: State, owner: Key, destination: TokenAccount, now: int)
    requires VaultsCover(s) && s.pool.Some? && destination in s.tokens
    requires owner in s.stakes && s.stakes[owner].status == Cooldown && AccountShape(s.stakes[owner])
    ensures Refusal(s, Withdraw(owner, destination), now).None? <==>
      now >= s.stakes[owner].cooldownStart + COOLDOWN_SECS
  {
  }

  /** The snapshot account is always new: its `init` never collides. */
  lemma SnapshotNeverCollides(s: State, signer: Key, power: nat, count: nat, now: int)
    requires Inv(s)
    ensures Refusal(s, SnapshotEpoch(signer, power, count), now) != Some(AlreadyInUse)
  {
  }
}
