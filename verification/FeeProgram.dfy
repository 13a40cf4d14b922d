/** The handlers of the fee collector, updating its accounts in place. Each is proved to do exactly
    what the state machine says and to change nothing when it fails. */
module FeeProgram {
  import opened Wrappers
  import opened Bytes
  import opened MerkleClaims
  import opened FeeEpochs

  datatype Outcome = Ok | Err(error: Error)

  function Reply(refusal: Option<Error>): Outcome {
    if refusal.Some? then Err(refusal.value) else Ok
  }

  class Program {
    var config: Config
    var epochs: map<u64, Epoch>
    var tokens: map<Place, nat>

    function Accounts(): Ledger
      reads this
    {
      Ledger(config, epochs, tokens)
    }

    constructor (l: Ledger)
      ensures Accounts() == l
    {
      config, epochs, tokens := l.config, l.epochs, l.tokens;
    }

    method HarvestFees(hash: HashFn, amount: u64, now: i64) returns (r: Outcome)
      modifies this
      ensures r == Reply(Refusal(hash, old(Accounts()), Collects(amount), now))
      ensures Accounts() == Step(hash, old(Accounts()), Collects(amount), now)
    {
      var id := SaturatingSub(config.nextEpochId, 1);
      if id !in epochs || Intake !in tokens {
        return Err(AccountMissing);
      }
      if config.paused {
        return Err(Paused);
      }
      var epoch := epochs[id];
      if epoch.status != Open {
        return Err(EpochNotOpen);
      }
      if epoch.totalCollected + amount >= U64_LIMIT {
        return Err(ArithmeticOverflow);
      }
      tokens := tokens[Intake := tokens[Intake] + amount];
      epochs := epochs[id := epoch.(totalCollected := epoch.totalCollected + amount)];
      return Ok;
    }

    method RecordIntake(hash: HashFn, id: u64, amount: u64, registered: bool, now: i64) returns (r: Outcome)
      modifies this
      ensures r == Reply(Refusal(hash, old(Accounts()), Records(id, amount, registered), now))
      ensures Accounts() == Step(hash, old(Accounts()), Records(id, amount, registered), now)
    {
      if id !in epochs {
        return Err(AccountMissing);
      }
      if !registered {
        return Err(Unauthorized);
      }
      var epoch := epochs[id];
      if epoch.status != Open {
        return Err(EpochNotOpen);
      }
      if epoch.totalCollected + amount >= U64_LIMIT {
        return Err(ArithmeticOverflow);
      }
      epochs := epochs[id := epoch.(totalCollected := epoch.totalCollected + amount)];
      return Ok;
    }

    /** The four transfers out of the intake vault, each skipped when nothing is due. */
    method FanOut(split: Fees.Split) returns (r: Option<map<Place, nat>>)
      requires AllExist(Accounts())
      ensures r == SendSplit(tokens, config, split)
    {
      var moved := tokens;
      if split.burn > 0 {
        if moved[Intake] < split.burn {
          return None;
        }
        moved := Move(moved, Intake, BurnVault, split.burn);
      }
      if split.staker > 0 {
        if moved[Intake] < split.staker {
          return None;
        }
        moved := Move(moved, Intake, StakerVault, split.staker);
      }
      if split.grant > 0 {
        if moved[Intake] < split.grant {
          return None;
        }
        moved := Move(moved, Intake, config.grantTo, split.grant);
      }
      if split.treasury > 0 {
        if moved[Intake] < split.treasury {
          return None;
        }
        moved := Move(moved, Intake, config.treasuryTo, split.treasury);
      }
      return Some(moved);
    }

    method CheckElapsed(id: u64, now: i64) returns (r: Outcome)
      requires id in epochs
      ensures r == Reply(ElapsedRefusal(config, epochs[id], now))
    {
      if config.paused {
        return Err(Paused);
      }
      if epochs[id].status != Open {
        return Err(EpochNotOpen);
      }
      var epochEnd := epochs[id].startedAt + config.epochDuration;
      if !FitsI64(epochEnd) {
        return Err(ArithmeticOverflow);
      }
      if now < epochEnd {
        return Err(EpochNotElapsed);
      }
      return Ok;
    }

    /** The checks of a split, and the balances after its transfers. */
    method PrepareSplit(id: u64, now: i64) returns (r: Outcome, moved: map<Place, nat>)
      ensures r == Reply(ProcessRefusal(Accounts(), id, now))
      ensures r.Ok? ==> SendSplit(tokens, config, SplitOf(config, epochs[id].totalCollected)) == Some(moved)
    {
      moved := tokens;
      if id !in epochs || !AllExist(Accounts()) {
        return Err(AccountMissing), moved;
      }
      if config.nextEpochId in epochs {
        return Err(AlreadyInUse), moved;
      }
      r := CheckElapsed(id, now);
      if r.Err? {
        return;
      }
      var sent := FanOut(SplitOf(config, epochs[id].totalCollected));
      if sent.None? {
        return Err(InsufficientFunds), moved;
      }
      if config.nextEpochId + 1 >= U64_LIMIT {
        return Err(ArithmeticOverflow), moved;
      }
      return Ok, sent.value;
    }

    method ProcessEpoch(hash: HashFn, id: u64, now: i64) returns (r: Outcome)
      modifies this
      ensures r == Reply(Refusal(hash, old(Accounts()), Process(id), now))
      ensures Accounts() == Step(hash, old(Accounts()), Process(id), now)
    {
      var moved;
      r, moved := PrepareSplit(id, now);
      if r.Err? {
        return;
      }
      ghost var before := Accounts();
      var epoch := epochs[id];
      var split := SplitOf(config, epoch.totalCollected);
      epoch := epoch.(status := Splitting, closedAt := now);
      epoch := epoch.(burnAmount := split.burn, stakerAmount := split.staker);
      tokens := moved;
      epochs := epochs[id := epoch];
      epochs := epochs[config.nextEpochId := FreshEpoch(now)];
      config := config.(nextEpochId := config.nextEpochId + 1);
      assert Accounts() == ProcessEffect(before, id, now);
    }

    method CommitDistributionRoot(hash: HashFn, id: u64, root: bytes32, signer: Key, now: i64) returns (r: Outcome)
      modifies this
      ensures r == Reply(Refusal(hash, old(Accounts()), Commit(id, root, signer), now))
      ensures Accounts() == Step(hash, old(Accounts()), Commit(id, root, signer), now)
    {
      if id !in epochs {
        return Err(AccountMissing);
      }
      if signer != config.authority && signer != config.metaAuthority {
        return Err(Unauthorized);
      }
      var epoch := epochs[id];
      if epoch.status != Splitting {
        return Err(InvalidEpochStatus);
      }
      if epoch.committed {
        return Err(DistributionAlreadyCommitted);
      }
      var deadline := epoch.closedAt + DISTRIBUTION_WINDOW_SECS;
      if !FitsI64(deadline) {
        return Err(ArithmeticOverflow);
      }
      if now >= deadline {
        return Err(DistributionWindowElapsed);
      }
      epoch := epoch.(root := root);
      epoch := epoch.(committed := true);
      epoch := epoch.(status := DistributionCommitted);
      epochs := epochs[id := epoch];
      return Ok;
    }

    method ClaimStaker(hash: HashFn, q: ClaimRequest, now: i64) returns (r: Outcome)
      modifies this
      ensures r == Reply(Refusal(hash, old(Accounts()), Claims(q), now))
      ensures Accounts() == Step(hash, old(Accounts()), Claims(q), now)
    {
      if q.id !in epochs || StakerVault !in tokens || q.destination !in tokens {
        return Err(AccountMissing);
      }
      var epoch := epochs[q.id];
      if q.staker in epoch.claims {
        return Err(AlreadyInUse);
      }
      if |q.proof| > MAX_MERKLE_PROOF_DEPTH {
        return Err(MerkleProofTooDeep);
      }
      if epoch.status != DistributionCommitted {
        return Err(InvalidEpochStatus);
      }
      var deadline := epoch.closedAt + config.claimWindow;
      if !FitsI64(deadline) {
        return Err(ArithmeticOverflow);
      }
      if now >= deadline {
        return Err(ClaimWindowElapsed);
      }
      var leaf := hash(ClaimPreimage(q.staker, q.amount, q.id));
      var included := VerifyProof(hash, q.proof, epoch.root, leaf);
      if !included {
        return Err(MerkleProofInvalid);
      }
      if epoch.claimedTotal + q.amount >= U64_LIMIT {
        return Err(ArithmeticOverflow);
      }
      var newTotal := epoch.claimedTotal + q.amount;
      if newTotal > epoch.stakerAmount {
        return Err(ClaimOverflow);
      }
      if tokens[StakerVault] < q.amount {
        return Err(InsufficientFunds);
      }
      epoch := epoch.(claimedTotal := newTotal);
      epoch := epoch.(claims := epoch.claims[q.staker := q.amount]);
      epochs := epochs[q.id := epoch];
      tokens := tokens[StakerVault := tokens[StakerVault] - q.amount];
      tokens := tokens[q.destination := tokens[q.destination] + q.amount];
      return Ok;
    }

    method ExecuteBurn(hash: HashFn, id: u64, now: i64) returns (r: Outcome)
      modifies this
      ensures r == Reply(Refusal(hash, old(Accounts()), Burn(id), now))
      ensures Accounts() == Step(hash, old(Accounts()), Burn(id), now)
    {
      if id !in epochs || BurnVault !in tokens {
        return Err(AccountMissing);
      }
      var epoch := epochs[id];
      if epoch.status == Open {
        return Err(InvalidEpochStatus);
      }
      if epoch.burnExecuted {
        return Err(BurnAlreadyExecuted);
      }
      if epoch.totalCollected < config.minBurn {
        return Err(BurnBelowThreshold);
      }
      if tokens[BurnVault] < epoch.burnAmount {
        return Err(InsufficientFunds);
      }
      epochs := epochs[id := epoch.(burnExecuted := true)];
      tokens := tokens[BurnVault := tokens[BurnVault] - epoch.burnAmount];
      return Ok;
    }

    method SweepStaleEpoch(hash: HashFn, id: u64, now: i64) returns (r: Outcome)
      modifies this
      ensures r == Reply(Refusal(hash, old(Accounts()), Sweep(id), now))
      ensures Accounts() == Step(hash, old(Accounts()), Sweep(id), now)
    {
      if id !in epochs || id + 1 >= U64_LIMIT || id + 1 !in epochs || !VaultsExist(tokens) {
        return Err(AccountMissing);
      }
      var epoch := epochs[id];
      if epoch.status != Splitting && epoch.status != DistributionCommitted {
        return Err(InvalidEpochStatus);
      }
      if epoch.swept {
        return Err(AlreadySwept);
      }
      var claimEnd := epoch.closedAt + config.claimWindow;
      if !FitsI64(claimEnd) || !FitsI64(claimEnd + SWEEP_GRACE_SECS) {
        return Err(ArithmeticOverflow);
      }
      if now < claimEnd + SWEEP_GRACE_SECS {
        return Err(SweepGraceNotElapsed);
      }
      var residualStaker := SaturatingSub(epoch.stakerAmount, epoch.claimedTotal);
      var residualBurn := if epoch.burnExecuted then 0 else epoch.burnAmount;
      if residualStaker + residualBurn >= U64_LIMIT {
        return Err(ArithmeticOverflow);
      }
      epoch := epoch.(status := Stale);
      epoch := epoch.(swept := true);
      var next := epochs[id + 1];
      if next.totalCollected + residualStaker + residualBurn >= U64_LIMIT {
        return Err(ArithmeticOverflow);
      }
      next := next.(totalCollected := next.totalCollected + residualStaker + residualBurn);
      if tokens[StakerVault] < residualStaker || tokens[BurnVault] < residualBurn {
        return Err(InsufficientFunds);
      }
      epochs := epochs[id := epoch];
      epochs := epochs[id + 1 := next];
      tokens := Move(tokens, StakerVault, Intake, residualStaker);
      tokens := Move(tokens, BurnVault, Intake, residualBurn);
      return Ok;
    }

    method SetDistributionParams(hash: HashFn, signer: Key, shares: Shares, now: i64) returns (r: Outcome)
      modifies this
      ensures r == Reply(Refusal(hash, old(Accounts()), SetShares(signer, shares), now))
      ensures Accounts() == Step(hash, old(Accounts()), SetShares(signer, shares), now)
    {
      if signer != config.metaAuthority {
        return Err(Unauthorized);
      }
      if shares.burn as int + shares.staker + shares.grant + shares.treasury != Fees.BPS_DENOM {
        return Err(InvalidBpsSum);
      }
      if shares.burn > BURN_CAP_BPS || shares.staker > STAKER_CAP_BPS {
        return Err(BucketCapExceeded);
      }
      if shares.grant > GRANT_CAP_BPS || shares.treasury > TREASURY_CAP_BPS {
        return Err(BucketCapExceeded);
      }
      config := config.(shares := shares);
      return Ok;
    }

    method SetPausedFlag(hash: HashFn, signer: Key, paused: bool, now: i64) returns (r: Outcome)
      modifies this
      ensures r == Reply(Refusal(hash, old(Accounts()), SetPaused(signer, paused), now))
      ensures Accounts() == Step(hash, old(Accounts()), SetPaused(signer, paused), now)
    {
      if signer != config.authority && signer != config.emergencyCouncil {
        return Err(Unauthorized);
      }
      config := config.(paused := paused);
      return Ok;
    }
  }
}
