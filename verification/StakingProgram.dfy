/** The instruction handlers of the staking program, updating its accounts in place. Each handler
    is proved to do exactly what the state machine says, including the order of its checks, and to
    change nothing when it fails. */
module StakingProgram {
  import opened Wrappers
  import opened Bytes
  import opened StakingModel

  datatype Outcome = Ok | Err(error: Error)

  function Reply(refusal: Option<Error>): Outcome {
    if refusal.Some? then Err(refusal.value) else Ok
  }

  class Program {
    var config: Option<Key>
    var guard: Option<Guard>
    var callers: Option<seq<Key>>
    var pool: Option<Pool>
    var stakes: map<Key, StakeAccount>
    var snapshots: map<nat, Snapshot>
    var tokens: map<TokenAccount, nat>

    function Accounts(): State
      reads this
    {
      State(config, guard, callers, pool, stakes, snapshots, tokens)
    }

    constructor (wallets: map<TokenAccount, nat>)
      ensures Accounts() == State(None, None, None, None, map[], map[], wallets)
    {
      config, guard, callers, pool, stakes, snapshots, tokens := None, None, None, None, map[], map[], wallets;
    }

    method Initialize(authority: Key) returns (r: Outcome)
      modifies this
      ensures r == Reply(Refusal(old(Accounts()), Instruction.Initialize(authority), 0))
      ensures Accounts() == Step(old(Accounts()), Instruction.Initialize(authority), 0)
    {
      if config.Some? {
        return Err(AlreadyInUse);
      }
      config := Some(authority);
      return Ok;
    }

    method CheckConfigAuthority(signer: Key) returns (r: Outcome)
      ensures r == Reply(NeedConfigAuthority(Accounts(), signer))
    {
      if config.None? {
        return Err(AccountMissing);
      }
      if config.value != signer {
        return Err(Unauthorized);
      }
      return Ok;
    }

    method CheckPoolAuthority(signer: Key) returns (r: Outcome)
      ensures r == Reply(NeedPoolAuthority(Accounts(), signer))
    {
      if pool.None? {
        return Err(AccountMissing);
      }
      if pool.value.authority != signer {
        return Err(Unauthorized);
      }
      return Ok;
    }

    method CheckCallers(programs: seq<Key>) returns (ok: bool)
      ensures ok <==> CallersAllowed(programs)
    {
      if |programs| > MAX_ALLOWED_CALLERS {
        return false;
      }
      for i := 0 to |programs|
        invariant CallersAllowed(programs[..i])
      {
        if programs[i] == DefaultKey() {
          return false;
        }
      }
      assert programs[..|programs|] == programs;
      return true;
    }

    method InitGuard(signer: Key, initial: seq<Key>) returns (r: Outcome)
      modifies this
      ensures r == Reply(Refusal(old(Accounts()), Instruction.InitGuard(signer, initial), 0))
      ensures Accounts() == Step(old(Accounts()), Instruction.InitGuard(signer, initial), 0)
    {
      r := CheckConfigAuthority(signer);
      if r.Err? {
        return;
      }
      if guard.Some? || callers.Some? {
        return Err(AlreadyInUse);
      }
      var allowed := CheckCallers(initial);
      if !allowed {
        return Err(UnauthorizedCaller);
      }
      guard := Some(Guard(false, DefaultKey(), 0, 0));
      callers := Some(initial);
    }

    method SetAllowedCallers(signer: Key, programs: seq<Key>) returns (r: Outcome)
      modifies this
      ensures r == Reply(Refusal(old(Accounts()), Instruction.SetAllowedCallers(signer, programs), 0))
      ensures Accounts() == Step(old(Accounts()), Instruction.SetAllowedCallers(signer, programs), 0)
    {
      r := CheckConfigAuthority(signer);
      if r.Err? {
        return;
      }
      if callers.None? {
        return Err(AccountMissing);
      }
      var allowed := CheckCallers(programs);
      if !allowed {
        return Err(UnauthorizedCaller);
      }
      callers := Some(programs);
    }

    method ProposeGuardReset(signer: Key, now: int) returns (r: Outcome)
      modifies this
      ensures r == Reply(Refusal(old(Accounts()), Instruction.ProposeGuardReset(signer), now))
      ensures Accounts() == Step(old(Accounts()), Instruction.ProposeGuardReset(signer), now)
    {
      r := CheckConfigAuthority(signer);
      if r.Err? {
        return;
      }
      if guard.None? {
        return Err(AccountMissing);
      }
      guard := Some(guard.value.(resetProposedAt := now));
    }

    method AdminResetGuard(signer: Key, now: int) returns (r: Outcome)
      modifies this
      ensures r == Reply(Refusal(old(Accounts()), Instruction.AdminResetGuard(signer), now))
      ensures Accounts() == Step(old(Accounts()), Instruction.AdminResetGuard(signer), now)
    {
      r := CheckConfigAuthority(signer);
      if r.Err? {
        return;
      }
      if guard.None? {
        return Err(AccountMissing);
      }
      if guard.value.resetProposedAt == 0 {
        return Err(AdminResetNotTimelocked);
      }
      var elapsed := SaturatingSubI64(now, guard.value.resetProposedAt);
      if elapsed < ADMIN_RESET_TIMELOCK_SECS {
        return Err(AdminResetNotTimelocked);
      }
      var g := guard.value;
      g := g.(active := false);
      g := g.(enteredBy := DefaultKey());
      g := g.(enteredAtSlot := 0);
      g := g.(resetProposedAt := 0);
      guard := Some(g);
    }

    method InitPool(signer: Key, epochDuration: int, rewardRate: nat, now: int) returns (r: Outcome)
      modifies this
      ensures r == Reply(Refusal(old(Accounts()), Instruction.InitPool(signer, epochDuration, rewardRate), now))
      ensures Accounts() == Step(old(Accounts()), Instruction.InitPool(signer, epochDuration, rewardRate), now)
    {
      r := CheckConfigAuthority(signer);
      if r.Err? {
        return;
      }
      if pool.Some? {
        return Err(AlreadyInUse);
      }
      pool := Some(Pool(signer, 0, 0, 0, epochDuration, now, rewardRate, false, false, 0, false, 0));
    }

    method StakeTokens(owner: Key, source: Key, amount: nat, lockup: int, now: int) returns (r: Outcome)
      modifies this
      ensures r == Reply(Refusal(old(Accounts()), Stake(owner, source, amount, lockup), now))
      ensures Accounts() == Step(old(Accounts()), Stake(owner, source, amount, lockup), now)
    {
      if pool.None? || Wallet(source) !in tokens {
        return Err(AccountMissing);
      }
      if owner in stakes || Vault(owner) in tokens {
        return Err(AlreadyInUse);
      }
      var p := pool.value;
      if p.paused {
        return Err(Paused);
      }
      if p.closed {
        return Err(PoolClosed);
      }
      if p.pauseNewStakes {
        return Err(DepositsFrozen);
      }
      if amount == 0 {
        return Err(ZeroAmount);
      }
      if lockup < MIN_LOCKUP_SECS || lockup > MAX_LOCKUP_SECS {
        return Err(InvalidLockup);
      }
      var multiplier := ComputeMultiplier(lockup);
      var votingPower := ComputeVotingPower(amount, multiplier);
      if tokens[Wallet(source)] < amount {
        return Err(InsufficientFunds);
      }
      var newTokens := tokens[Vault(owner) := 0];
      newTokens := newTokens[Wallet(source) := newTokens[Wallet(source)] - amount];
      newTokens := newTokens[Vault(owner) := newTokens[Vault(owner)] + amount];
      if !FitsI64(now + lockup) {
        return Err(ArithmeticOverflow);
      }
      var sa := StakeAccount(amount, now + lockup, multiplier, votingPower, now, 0, p.currentEpoch, Active);
      if p.totalStaked + amount >= U64_LIMIT {
        return Err(ArithmeticOverflow);
      }
      p := p.(totalStaked := p.totalStaked + amount);
      p := p.(totalStakers := SaturatingInc32(p.totalStakers));
      tokens := newTokens;
      stakes := stakes[owner := sa];
      pool := Some(p);
      return Ok;
    }

    method BeginUnstake(owner: Key, now: int) returns (r: Outcome)
      modifies this
      ensures r == Reply(Refusal(old(Accounts()), Instruction.BeginUnstake(owner), now))
      ensures Accounts() == Step(old(Accounts()), Instruction.BeginUnstake(owner), now)
    {
      if pool.None? || owner !in stakes {
        return Err(AccountMissing);
      }
      if pool.value.closed {
        return Err(PoolClosed);
      }
      var sa := stakes[owner];
      if sa.status != Active {
        return Err(NotActive);
      }
      if now < sa.lockupEnd {
        return Err(LockupNotEnded);
      }
      sa := sa.(status := Cooldown);
      sa := sa.(cooldownStart := now);
      var p := pool.value;
      p := p.(totalStaked := SaturatingSub(p.totalStaked, sa.amount));
      if !FitsI64(now + COOLDOWN_SECS) {
        return Err(ArithmeticOverflow);
      }
      stakes := stakes[owner := sa];
      pool := Some(p);
      return Ok;
    }

    method WithdrawStake(owner: Key, destination: TokenAccount, now: int) returns (r: Outcome)
      modifies this
      ensures r == Reply(Refusal(old(Accounts()), Withdraw(owner, destination), now))
      ensures Accounts() == Step(old(Accounts()), Withdraw(owner, destination), now)
    {
      if pool.None? || owner !in stakes || Vault(owner) !in tokens || destination !in tokens {
        return Err(AccountMissing);
      }
      var sa := stakes[owner];
      if sa.status != Cooldown {
        return Err(NotInCooldown);
      }
      if !FitsI64(sa.cooldownStart + COOLDOWN_SECS) {
        return Err(ArithmeticOverflow);
      }
      if now < sa.cooldownStart + COOLDOWN_SECS {
        return Err(CooldownNotEnded);
      }
      var amount := sa.amount;
      if tokens[Vault(owner)] < amount {
        return Err(InsufficientFunds);
      }
      tokens := tokens[Vault(owner) := tokens[Vault(owner)] - amount];
      tokens := tokens[destination := tokens[destination] + amount];
      sa := sa.(status := Withdrawn);
      sa := sa.(amount := 0);
      sa := sa.(votingPower := 0);
      stakes := stakes[owner := sa];
      pool := Some(pool.value.(totalStakers := SaturatingSub(pool.value.totalStakers, 1)));
      return Ok;
    }

    method FreezeDeposits(signer: Key, now: int) returns (r: Outcome)
      modifies this
      ensures r == Reply(Refusal(old(Accounts()), Instruction.FreezeDeposits(signer), now))
      ensures Accounts() == Step(old(Accounts()), Instruction.FreezeDeposits(signer), now)
    {
      r := CheckPoolAuthority(signer);
      if r.Err? {
        return;
      }
      var p := pool.value;
      if p.pauseNewStakes {
        return Err(DepositsFrozen);
      }
      p := p.(pauseNewStakes := true);
      p := p.(pauseNewStakesAt := now);
      pool := Some(p);
    }

    method UnfreezeDeposits(signer: Key, now: int) returns (r: Outcome)
      modifies this
      ensures r == Reply(Refusal(old(Accounts()), Instruction.UnfreezeDeposits(signer), now))
      ensures Accounts() == Step(old(Accounts()), Instruction.UnfreezeDeposits(signer), now)
    {
      r := CheckPoolAuthority(signer);
      if r.Err? {
        return;
      }
      var p := pool.value;
      if !p.pauseNewStakes {
        return Err(DepositsNotFrozen);
      }
      p := p.(pauseNewStakes := false);
      p := p.(pauseNewStakesAt := 0);
      pool := Some(p);
    }

    method ClosePool(signer: Key, now: int) returns (r: Outcome)
      modifies this
      ensures r == Reply(Refusal(old(Accounts()), Instruction.ClosePool(signer), now))
      ensures Accounts() == Step(old(Accounts()), Instruction.ClosePool(signer), now)
    {
      r := CheckPoolAuthority(signer);
      if r.Err? {
        return;
      }
      var p := pool.value;
      if p.closed {
        return Err(PoolClosed);
      }
      var windowElapsed := false;
      if p.pauseNewStakes {
        var windowEnd := p.pauseNewStakesAt + MIGRATION_WINDOW_SECS;
        if !FitsI64(windowEnd) {
          return Err(ArithmeticOverflow);
        }
        windowElapsed := now >= windowEnd;
      }
      if p.totalStaked != 0 && !windowElapsed {
        return Err(MigrationWindowActive);
      }
      p := p.(closed := true);
      p := p.(closedAt := now);
      pool := Some(p);
    }

    method TakeSnapshot(signer: Key, totalVotingPower: nat, stakerCount: nat, now: int) returns (r: Outcome)
      modifies this
      ensures r == Reply(Refusal(old(Accounts()), SnapshotEpoch(signer, totalVotingPower, stakerCount), now))
      ensures Accounts() == Step(old(Accounts()), SnapshotEpoch(signer, totalVotingPower, stakerCount), now)
    {
      r := CheckConfigAuthority(signer);
      if r.Err? {
        return;
      }
      if pool.None? {
        return Err(AccountMissing);
      }
      var p := pool.value;
      if p.currentEpoch in snapshots {
        return Err(AlreadyInUse);
      }
      if p.closed {
        return Err(PoolClosed);
      }
      var epochEnd := p.epochStart + p.epochDuration;
      if !FitsI64(epochEnd) {
        return Err(ArithmeticOverflow);
      }
      if now < epochEnd {
        return Err(EpochNotEnded);
      }
      var snap := Snapshot(p.currentEpoch, totalVotingPower, now, stakerCount);
      if p.currentEpoch + 1 >= U64_LIMIT {
        return Err(ArithmeticOverflow);
      }
      snapshots := snapshots[p.currentEpoch := snap];
      p := p.(currentEpoch := p.currentEpoch + 1);
      p := p.(epochStart := now);
      pool := Some(p);
    }
  }
}
