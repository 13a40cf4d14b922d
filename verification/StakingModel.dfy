/** The NXS staking program as a state machine: its accounts, the checks and effects of each
    instruction, and the token accounts its transfers move between. An instruction that fails any
    check leaves everything as it was, as the runtime rolls it back. */
module StakingModel {
  import opened Wrappers
  import opened Bytes

  const DAY: int := 24 * 3_600
  const MIN_LOCKUP_SECS: int := 7 * DAY
  const MAX_LOCKUP_SECS: int := 365 * DAY
  const COOLDOWN_SECS: int := 3 * DAY
  const MIGRATION_WINDOW_SECS: int := 180 * DAY
  const ADMIN_RESET_TIMELOCK_SECS: int := DAY
  const MAX_VOTING_POWER_MULTIPLIER: nat := 4
  const MAX_ALLOWED_CALLERS: nat := 8

  /** Token accounts of the staking mint: wallets, and the vault of each stake account. */
  datatype TokenAccount = Wallet(id: Key) | Vault(owner: Key)

  datatype StakeStatus = Active | Cooldown | Withdrawn

  datatype StakeAccount = StakeAccount(
    amount: nat,
    lockupEnd: int,
    lockupMultiplier: nat,
    votingPower: nat,
    stakedAt: int,
    cooldownStart: int,
    lastClaimEpoch: nat,
    status: StakeStatus)

  datatype Pool = Pool(
    authority: Key,
    totalStaked: nat,
    totalStakers: nat,
    currentEpoch: nat,
    epochDuration: int,
    epochStart: int,
    rewardRate: nat,
    paused: bool,
    pauseNewStakes: bool,
    pauseNewStakesAt: int,
    closed: bool,
    closedAt: int)

  datatype Snapshot = Snapshot(epoch: nat, totalVotingPower: nat, time: int, stakerCount: nat)

  datatype Guard = Guard(active: bool, enteredBy: Key, enteredAtSlot: nat, resetProposedAt: int)

  datatype State = State(
    config: Option<Key>,
    guard: Option<Guard>,
    callers: Option<seq<Key>>,
    pool: Option<Pool>,
    stakes: map<Key, StakeAccount>,
    snapshots: map<nat, Snapshot>,
    tokens: map<TokenAccount, nat>)

  datatype Instruction =
    | Initialize(authority: Key)
    | InitGuard(signer: Key, initial: seq<Key>)
    | SetAllowedCallers(signer: Key, programs: seq<Key>)
    | ProposeGuardReset(signer: Key)
    | AdminResetGuard(signer: Key)
    | InitPool(signer: Key, epochDuration: int, rewardRate: nat)
    | Stake(owner: Key, source: Key, amount: nat, lockup: int)
    | BeginUnstake(owner: Key)
    | Withdraw(owner: Key, destination: TokenAccount)
    | FreezeDeposits(signer: Key)
    | UnfreezeDeposits(signer: Key)
    | ClosePool(signer: Key)
    | SnapshotEpoch(signer: Key, totalVotingPower: nat, stakerCount: nat)
    | OutsideTransfer(from: Key, to: TokenAccount, amount: nat)

  datatype Error =
    | AccountMissing
    | AlreadyInUse
    | Unauthorized
    | UnauthorizedCaller
    | Paused
    | PoolClosed
    | DepositsFrozen
    | DepositsNotFrozen
    | ZeroAmount
    | InvalidLockup
    | InsufficientFunds
    | ArithmeticOverflow
    | NotActive
    | LockupNotEnded
    | NotInCooldown
    | CooldownNotEnded
    | MigrationWindowActive
    | EpochNotEnded
    | AdminResetNotTimelocked

  /** The all-zero address. */
  function DefaultKey(): Key {
    BeBytes(0, 32)
  }

  // ----- arithmetic of the program

  function SaturatingInc32(a: nat): nat {
    if a + 1 < U32_LIMIT then a + 1 else U32_LIMIT - 1
  }

  /** 64-bit signed subtraction that stops at the ends of the range. */
  function SaturatingSubI64(a: int, b: int): int {
    if a - b > I64_MAX then I64_MAX else if a - b < I64_MIN then I64_MIN else a - b
  }

  function ComputeMultiplier(lockup: int): nat {
    if lockup <= MIN_LOCKUP_SECS then 1
    else
      var range := MAX_LOCKUP_SECS - MIN_LOCKUP_SECS;
      var elapsed := Min(lockup - MIN_LOCKUP_SECS, range);
      var extra := elapsed * (MAX_VOTING_POWER_MULTIPLIER - 1) / range;
      1 + Min(extra, MAX_VOTING_POWER_MULTIPLIER - 1)
  }

  function ComputeVotingPower(amount: nat, multiplier: nat): nat {
    Min(amount * multiplier, U64_LIMIT - 1)
  }

  // ----- the first check that fails, if any

  function NeedConfigAuthority(s: State, signer: Key): Option<Error> {
    if s.config.None? then Some(AccountMissing)
    else if s.config.value != signer then Some(Unauthorized)
    else None
  }

  /** Few enough callers, none of them the default key. */
  predicate CallersAllowed(programs: seq<Key>) {
    |programs| <= MAX_ALLOWED_CALLERS && forall i :: 0 <= i < |programs| ==> programs[i] != DefaultKey()
  }

  function NeedPoolAuthority(s: State, signer: Key): Option<Error> {
    if s.pool.None? then Some(AccountMissing)
    else if s.pool.value.authority != signer then Some(Unauthorized)
    else None
  }

  function StakeRefusal(s: State, owner: Key, source: Key, amount: nat, lockup: int, now: int): Option<Error> {
    if s.pool.None? || Wallet(source) !in s.tokens then Some(AccountMissing)
    else if owner in s.stakes || Vault(owner) in s.tokens then Some(AlreadyInUse)
    else if s.pool.value.paused then Some(Paused)
    else if s.pool.value.closed then Some(PoolClosed)
    else if s.pool.value.pauseNewStakes then Some(DepositsFrozen)
    else if amount == 0 then Some(ZeroAmount)
    else if !(MIN_LOCKUP_SECS <= lockup <= MAX_LOCKUP_SECS) then Some(InvalidLockup)
    else if s.tokens[Wallet(source)] < amount then Some(InsufficientFunds)
    else if !FitsI64(now + lockup) then Some(ArithmeticOverflow)
    else if s.pool.value.totalStaked + amount >= U64_LIMIT then Some(ArithmeticOverflow)
    else None
  }

  function BeginUnstakeRefusal(s: State, owner: Key, now: int): Option<Error> {
    if s.pool.None? || owner !in s.stakes then Some(AccountMissing)
    else if s.pool.value.closed then Some(PoolClosed)
    else if s.stakes[owner].status != Active then Some(NotActive)
    else if now < s.stakes[owner].lockupEnd then Some(LockupNotEnded)
    else if !FitsI64(now + COOLDOWN_SECS) then Some(ArithmeticOverflow)
    else None
  }

  function WithdrawRefusal(s: State, owner: Key, destination: TokenAccount, now: int): Option<Error> {
    if s.pool.None? || owner !in s.stakes || Vault(owner) !in s.tokens || destination !in s.tokens then
      Some(AccountMissing)
    else if s.stakes[owner].status != Cooldown then Some(NotInCooldown)
    else if !FitsI64(s.stakes[owner].cooldownStart + COOLDOWN_SECS) then Some(ArithmeticOverflow)
    else if now < s.stakes[owner].cooldownStart + COOLDOWN_SECS then Some(CooldownNotEnded)
    else if s.tokens[Vault(owner)] < s.stakes[owner].amount then Some(InsufficientFunds)
    else None
  }

  function ClosePoolRefusal(s: State, signer: Key, now: int): Option<Error> {
    if NeedPoolAuthority(s, signer).Some? then NeedPoolAuthority(s, signer)
    else
      var p := s.pool.value;
      if p.closed then Some(PoolClosed)
      else if p.pauseNewStakes && !FitsI64(p.pauseNewStakesAt + MIGRATION_WINDOW_SECS) then Some(ArithmeticOverflow)
      else if p.totalStaked != 0 && !(p.pauseNewStakes && now >= p.pauseNewStakesAt + MIGRATION_WINDOW_SECS) then
        Some(MigrationWindowActive)
      else None
  }

  function SnapshotRefusal(s: State, signer: Key, now: int): Option<Error> {
    if NeedConfigAuthority(s, signer).Some? then NeedConfigAuthority(s, signer)
    else if s.pool.None? then Some(AccountMissing)
    else if s.pool.value.currentEpoch in s.snapshots then Some(AlreadyInUse)
    else if s.pool.value.closed then Some(PoolClosed)
    else if !FitsI64(s.pool.value.epochStart + s.pool.value.epochDuration) then Some(ArithmeticOverflow)
    else if now < s.pool.value.epochStart + s.pool.value.epochDuration then Some(EpochNotEnded)
    else if s.pool.value.currentEpoch + 1 >= U64_LIMIT then Some(ArithmeticOverflow)
    else None
  }

  function Refusal(s: State, ins: Instruction, now: int): Option<Error> {
    match ins
    case Initialize(_) => if s.config.Some? then Some(AlreadyInUse) else None
    case InitGuard(signer, initial) =>
      if NeedConfigAuthority(s, signer).Some? then NeedConfigAuthority(s, signer)
      else if s.guard.Some? || s.callers.Some? then Some(AlreadyInUse)
      else if !CallersAllowed(initial) then Some(UnauthorizedCaller)
      else None
    case SetAllowedCallers(signer, programs) =>
      if NeedConfigAuthority(s, signer).Some? then NeedConfigAuthority(s, signer)
      else if s.callers.None? then Some(AccountMissing)
      else if !CallersAllowed(programs) then Some(UnauthorizedCaller)
      else None
    case ProposeGuardReset(signer) =>
      if NeedConfigAuthority(s, signer).Some? then NeedConfigAuthority(s, signer)
      else if s.guard.None? then Some(AccountMissing)
      else None
    case AdminResetGuard(signer) =>
      if NeedConfigAuthority(s, signer).Some? then NeedConfigAuthority(s, signer)
      else if s.guard.None? then Some(AccountMissing)
      else if s.guard.value.resetProposedAt == 0 then Some(AdminResetNotTimelocked)
      else if SaturatingSubI64(now, s.guard.value.resetProposedAt) < ADMIN_RESET_TIMELOCK_SECS then
        Some(AdminResetNotTimelocked)
      else None
    case InitPool(signer, _, _) =>
      if NeedConfigAuthority(s, signer).Some? then NeedConfigAuthority(s, signer)
      else if s.pool.Some? then Some(AlreadyInUse)
      else None
    case Stake(owner, source, amount, lockup) => StakeRefusal(s, owner, source, amount, lockup, now)
    case BeginUnstake(owner) => BeginUnstakeRefusal(s, owner, now)
    case Withdraw(owner, destination) => WithdrawRefusal(s, owner, destination, now)
    case FreezeDeposits(signer) =>
      if NeedPoolAuthority(s, signer).Some? then NeedPoolAuthority(s, signer)
      else if s.pool.value.pauseNewStakes then Some(DepositsFrozen)
      else None
    case UnfreezeDeposits(signer) =>
      if NeedPoolAuthority(s, signer).Some? then NeedPoolAuthority(s, signer)
      else if !s.pool.value.pauseNewStakes then Some(DepositsNotFrozen)
      else None
    case ClosePool(signer) => ClosePoolRefusal(s, signer, now)
    case SnapshotEpoch(signer, _, _) => SnapshotRefusal(s, signer, now)
    case OutsideTransfer(from, to, amount) =>
      if Wallet(from) !in s.tokens || to !in s.tokens then Some(AccountMissing)
      else if s.tokens[Wallet(from)] < amount then Some(InsufficientFunds)
      else None
  }

  // ----- effects

  function Move(tokens: map<TokenAccount, nat>, from: TokenAccount, to: TokenAccount, amount: nat)
    : map<TokenAccount, nat>
    requires from in tokens && to in tokens && tokens[from] >= amount
  {
    var mid := tokens[from := tokens[from] - amount];
    mid[to := mid[to] + amount]
  }

  function NewStake(amount: nat, lockup: int, now: int, epoch: nat): StakeAccount {
    var multiplier := ComputeMultiplier(lockup);
    StakeAccount(amount, now + lockup, multiplier, ComputeVotingPower(amount, multiplier), now, 0, epoch, Active)
  }

  function StakeEffect(s: State, owner: Key, source: Key, amount: nat, lockup: int, now: int): State
    requires StakeRefusal(s, owner, source, amount, lockup, now).None?
  {
    var p := s.pool.value;
    var withVault := s.tokens[Vault(owner) := 0];
    s.(tokens := Move(withVault, Wallet(source), Vault(owner), amount),
       stakes := s.stakes[owner := NewStake(amount, lockup, now, p.currentEpoch)],
       pool := Some(p.(totalStaked := p.totalStaked + amount, totalStakers := SaturatingInc32(p.totalStakers))))
  }

  function BeginUnstakeEffect(s: State, owner: Key, now: int): State
    requires BeginUnstakeRefusal(s, owner, now).None?
  {
    var p, sa := s.pool.value, s.stakes[owner];
    s.(stakes := s.stakes[owner := sa.(status := Cooldown, cooldownStart := now)],
       pool := Some(p.(totalStaked := SaturatingSub(p.totalStaked, sa.amount))))
  }

  function WithdrawEffect(s: State, owner: Key, destination: TokenAccount, now: int): State
    requires WithdrawRefusal(s, owner, destination, now).None?
  {
    var p, sa := s.pool.value, s.stakes[owner];
    s.(tokens := Move(s.tokens, Vault(owner), destination, sa.amount),
       stakes := s.stakes[owner := sa.(status := Withdrawn, amount := 0, votingPower := 0)],
       pool := Some(p.(totalStakers := SaturatingSub(p.totalStakers, 1))))
  }

  function SnapshotEffect(s: State, signer: Key, power: nat, count: nat, now: int): State
    requires SnapshotRefusal(s, signer, now).None?
  {
    var p := s.pool.value;
    s.(snapshots := s.snapshots[p.currentEpoch := Snapshot(p.currentEpoch, power, now, count)],
       pool := Some(p.(currentEpoch := p.currentEpoch + 1, epochStart := now)))
  }

  function ClearedGuard(): Guard {
    Guard(false, DefaultKey(), 0, 0)
  }

  function Effect(s: State, ins: Instruction, now: int): State
    requires Refusal(s, ins, now).None?
  {
    match ins
    case Initialize(authority) => s.(config := Some(authority))
    case InitGuard(_, initial) => s.(guard := Some(ClearedGuard()), callers := Some(initial))
    case SetAllowedCallers(_, programs) => s.(callers := Some(programs))
    case ProposeGuardReset(_) => s.(guard := Some(s.guard.value.(resetProposedAt := now)))
    case AdminResetGuard(_) => s.(guard := Some(ClearedGuard()))
    case InitPool(signer, duration, rate) =>
      s.(pool := Some(Pool(signer, 0, 0, 0, duration, now, rate, false, false, 0, false, 0)))
    case Stake(owner, source, amount, lockup) => StakeEffect(s, owner, source, amount, lockup, now)
    case BeginUnstake(owner) => BeginUnstakeEffect(s, owner, now)
    case Withdraw(owner, destination) => WithdrawEffect(s, owner, destination, now)
    case FreezeDeposits(_) => s.(pool := Some(s.pool.value.(pauseNewStakes := true, pauseNewStakesAt := now)))
    case UnfreezeDeposits(_) => s.(pool := Some(s.pool.value.(pauseNewStakes := false, pauseNewStakesAt := 0)))
    case ClosePool(_) => s.(pool := Some(s.pool.value.(closed := true, closedAt := now)))
    case SnapshotEpoch(signer, power, count) => SnapshotEffect(s, signer, power, count, now)
    case OutsideTransfer(from, to, amount) => s.(tokens := Move(s.tokens, Wallet(from), to, amount))
  }

  function Step(s: State, ins: Instruction, now: int): State {
    if Refusal(s, ins, now).Some? then s else Effect(s, ins, now)
  }

  // ----- voting power

  /** The multiplier is at least k exactly from (k - 1) thirds of the way between the shortest and
      the longest lockup; it never leaves 1..4 and never falls as the lockup grows. */
  lemma MultiplierThresholds(lockup: int, k: nat)
    requires 1 < k <= MAX_VOTING_POWER_MULTIPLIER
    ensures ComputeMultiplier(lockup) >= k <==>
      3 * (lockup - MIN_LOCKUP_SECS) >= (k - 1) * (MAX_LOCKUP_SECS - MIN_LOCKUP_SECS)
    ensures 1 <= ComputeMultiplier(lockup) <= MAX_VOTING_POWER_MULTIPLIER
  {
    var range := MAX_LOCKUP_SECS - MIN_LOCKUP_SECS;
    assert range == 358 * DAY;
  }

  lemma MultiplierMonotone(a: int, b: int)
    requires a <= b
    ensures ComputeMultiplier(a) <= ComputeMultiplier(b)
  {
    if ComputeMultiplier(a) > 1 {
      MultiplierThresholds(a, ComputeMultiplier(a));
      MultiplierThresholds(b, ComputeMultiplier(a));
    } else {
      MultiplierThresholds(b, 2);
    }
  }

  /** The source's comment promises 2x at 90 days and 3x at 180; the formula gives 1x and 2x. */
  lemma MultiplierAtCommentedDays()
    ensures ComputeMultiplier(7 * DAY) == 1
    ensures ComputeMultiplier(90 * DAY) == 1
    ensures ComputeMultiplier(180 * DAY) == 2
    ensures ComputeMultiplier(365 * DAY) == 4
  {
  }
}
