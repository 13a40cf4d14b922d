# A verified model of the protocol's cores

A Dafny model of the parts of this repository whose correctness rests on arithmetic, ordering,
byte layouts or whole histories of instructions, with proofs of what those parts are for. Check the
project with `dafny verify dfyconfig.toml`.

## What is modelled

| files | part of the system |
|---|---|
| `StakingModel`, `StakingProgram`, `StakingInvariants`, `StakingHistory`, `StakingLiveness` | the NXS staking program: pool, stake accounts, vaults, epoch snapshots, guard resets, deposit freeze and pool closing |
| `JurorSelection`, `JurorDraws` | the stake-weighted juror draw of the dispute program, from hash values to jurors, with the pool snapshot before it and the seating of a panel after it |
| `MerkleClaims` | sorted-pair Merkle proofs for fee claims and governance votes |
| `FeeEpochs`, `FeeProgram`, `FeeInvariants`, `FeeHistory`, `FeeSchedule` | the fee collector's epochs: collecting, splitting, committing a root, paying claims, burning and sweeping over three vaults |
| `BidCommitment`, `AgentIdentity`, `Auction`, `AuctionProperties`, `AuctionBonds`, `AuctionReopening`, `AuctionOutcome`, `AuctionTiming` | sealed-bid auctions: the commitment shared by TypeScript and Rust, agents and their DIDs, a bid book from opening to the return of the bonds, and the task's next book |
| `FieldBytes`, `PairingGroup`, `Groth16`, `Groth16Batch`, `Groth16BatchWeights`, `Groth16BatchSoundness` | field elements as bytes, the Groth16 check of one proof and of a batch, where its weights come from, and what an accepted batch says |
| `SigningLimiter` | the auto-sign value cap and sliding-window rate limit |
| `CivicToken` | the parser of Civic gateway-token accounts |
| `ReputationAverage`, `Fees`, `TemplateEconomics` | reputation averaging, fee splits, and the template break-even calculator |
| `Wrappers`, `Bytes`, `Counting`, `Sums` | optional values, machine integers and their encodings as bytes, finite counting, totals of maps |

Programs that update accounts are modelled twice: as a class whose methods follow the handlers
statement by statement, and as a state machine on values (`Refusal`, `Step`, `Run`). The methods are
proved to be exactly the state machine, error by error; invariants and histories are proved about the
state machine. What its checks and effects amount to is stated again without it, over whole runs and in
terms of earlier events: when an instruction is accepted, whom it pays, who wins (`StakingLiveness`,
`FeeSchedule`, `AuctionTiming`, `AuctionOutcome`, `JurorDraws`, `Groth16BatchWeights`). Instructions are atomic: a refused one leaves every account as it was. A key that an
`init` constraint creates must be absent before. Clocks, callers, hashes, curve operations and
`slice::binary_search` are parameters: a hash is any function to 32 bytes, a curve is any pair of
groups with a map additive in its first argument and point encodings in which negation is that of
y (BN254 with infinity written as (0, 0) is one), and `binary_search` is any function with the
documented contract.

## Where the code and its own words differ

- The comment above `compute_multiplier` (`programs/nxs_staking/src/state.rs:64-65`) promises 2x at
  90 days and 3x at 180. The formula gives 1x and 2x (`MultiplierAtCommentedDays`); it is at least k
  exactly from (k - 1) thirds of the way between 7 and 365 days (`MultiplierThresholds`).
- A vault need not hold exactly its account's amount: anybody can send tokens to it, and a withdrawal
  can name another vault as destination. It holds exactly that much if and only if neither has
  happened (`VaultsExactIff`), and otherwise more, for good (`SurplusNeverShrinks`).
- `total_stakers` is the number of accounts not withdrawn if and only if no stake has arrived at a
  full 32-bit counter (`CountRightIff`), as none does below 2^32 accounts (`FewAccountsNeverFull`).
- An account still active when its pool closes can never be unstaked or withdrawn
  (`ActiveAtCloseNeverPaid`); until then its way out is open from lockup plus three days (`StakePaysOut`).
- Juror draws are not exactly proportional to stake: the first index gains one draw and the last loses
  one (`DrawFairness`). A juror without stake can be drawn, under some search of the documented contract, if
  and only if some later juror has stake (`EmptyStakeDrawnExactly`, `LaterStake`).
- A bond slashed for a wrong opening is meant to go to the fee collector
  (`programs/task_market/src/instructions/reveal_bid.rs:63-66`). In a cancelled auction it is refunded
  (`BondsAlwaysClaimable`), and in a settled one only the mint of the account that receives it is
  checked (`programs/task_market/src/instructions/claim_bond.rs:56-57`). It leaves the bidder
  if and only if the bidder names an account that is not its own (`SlashLeavesBidderExactly`,
  `SlashedBondCanComeBack`).
- A winner's bond stays in the escrow for good, so a settled book with bonds cannot be closed
  (`SettledBookNeverCloses`), if the task had no bid accounts when the book was opened. Bid accounts
  outlive their book, and a reopened one starts out right if and only if none is left
  (`OpenedInvExactly`): a leftover bid can win without a bond (`DormantBidWins`), or be listed in
  place of a counted one (`RevealedLeftoverDisplaces`).
- An accepted batch does not say that all its proofs are valid, because a proof's weight is fixed
  before the proof is: it does so exactly for batches of one (`SoundExactlyAlone`,
  `AcceptedThoughInvalid`).
- A sweep credits the next epoch with what it takes back, but that epoch is still to be split only if
  it is the newest (`SweepReachesSplitExactly`, `ClosedNeverSplit`). And an epoch's burn can still be
  executed after the sweep has taken its burn share back, at the expense of other epochs' burns
  (`BurnVaultExactly`, `BurnsCoveredExactly`).
- `negate_g1` is an involution except at y equal to the base field modulus, where it is not
  (`NegatedTwice`). Such bytes are not a point, but their negation can be (`NegatedDecodesWrongly`).

## Model

| member | source | states |
|---|---|---|
| StakingModel.MultiplierThresholds | programs/nxs_staking/src/state.rs:64-74 | for every lockup the multiplier reaches k exactly from (k - 1) thirds of the range on, and stays within 1..4 |
| StakingModel.MultiplierMonotone | programs/nxs_staking/src/state.rs:66-74 | a longer lockup never lowers the multiplier |
| StakingModel.MultiplierAtCommentedDays | programs/nxs_staking/src/state.rs:64-74 | the counterexample to the comment: 90 days give 1x, 180 days give 2x |
| StakingProgram.Program.Initialize | programs/nxs_staking/src/lib.rs:30-35 | the handler is the state machine's step: same verdict, same new accounts |
| StakingProgram.Program.InitGuard | programs/nxs_staking/src/lib.rs:37-53 | likewise; only the config authority, once, with at most eight callers none of which is the default key |
| StakingProgram.Program.SetAllowedCallers | programs/nxs_staking/src/lib.rs:55-68 | likewise, under the same checks on the list |
| StakingProgram.Program.ProposeGuardReset | programs/nxs_staking/src/lib.rs:70-73 | likewise; stamps the proposal with the clock |
| StakingProgram.Program.AdminResetGuard | programs/nxs_staking/src/lib.rs:75-80 | likewise; refused without a proposal or before its 24 hours are over |
| StakingProgram.Program.InitPool | programs/nxs_staking/src/lib.rs:84-115 | likewise; only the config authority, once |
| StakingProgram.Program.StakeTokens | programs/nxs_staking/src/lib.rs:117-179 | likewise, through every check in order, the transfer into the new vault and both counters |
| StakingProgram.Program.BeginUnstake | programs/nxs_staking/src/lib.rs:181-207 | likewise; nothing is written when the cooldown end overflows |
| StakingProgram.Program.WithdrawStake | programs/nxs_staking/src/lib.rs:209-261 | likewise; the vault pays the account's amount to the destination and the account is emptied |
| StakingProgram.Program.FreezeDeposits | programs/nxs_staking/src/lib.rs:263-277 | likewise |
| StakingProgram.Program.UnfreezeDeposits | programs/nxs_staking/src/lib.rs:279-292 | likewise |
| StakingProgram.Program.ClosePool | programs/nxs_staking/src/lib.rs:294-320 | likewise, including the overflow of the window end when deposits are frozen |
| StakingProgram.Program.TakeSnapshot | programs/nxs_staking/src/lib.rs:336-373 | likewise |
| StakingInvariants.StepKeepsInv | programs/nxs_staking/src/lib.rs:37-373 | every instruction at any time keeps: staked total = sum of active amounts, vaults cover their accounts, snapshots gap-free, an admissible caller list beside every guard, and every account's life-cycle shape |
| StakingInvariants.BeginUnstakeKeepsTotal | programs/nxs_staking/src/lib.rs:181-195 | the saturating subtraction of the staked total does not saturate, and the total stays the sum of active amounts |
| StakingInvariants.WithdrawKeepsCount | programs/nxs_staking/src/lib.rs:246-253 | while the staker count is right, its decrement does not saturate and keeps it right |
| StakingInvariants.StepKeepsCount | programs/nxs_staking/src/lib.rs:117-253 | any instruction keeps a right staker count right exactly when it is not an accepted stake that meets a full 32-bit counter |
| StakingInvariants.StepConservesTokens | programs/nxs_staking/src/lib.rs:135-148 | no instruction changes the sum over all wallets and vaults |
| StakingInvariants.SurplusNeverShrinks | programs/nxs_staking/src/lib.rs:117-253 | no instruction ever reduces what a vault holds beyond its account's amount |
| StakingInvariants.StepVaultsExactly | programs/nxs_staking/src/lib.rs:117-253 | after any instruction the vaults are exact if and only if they were before and it sent nothing into a vault, as a withdrawal or from outside |
| StakingInvariants.WithdrawEnabled | programs/nxs_staking/src/lib.rs:209-244 | in every state with covered vaults and a well-shaped account, a cooling account's withdrawal is accepted exactly from the end of its cooldown, with the pool closed or not |
| StakingInvariants.SnapshotNeverCollides | programs/nxs_staking/src/lib.rs:336-373 | the account that a snapshot creates is never there already |
| StakingHistory.BooksBalance | programs/nxs_staking/src/lib.rs:70-373 | on every run from an empty program the invariant holds in every state and the token supply is the initial one |
| StakingHistory.VaultsExactIff | programs/nxs_staking/src/lib.rs:117-261 | at any moment of any run every vault holds exactly its account's amount if and only if no accepted withdrawal and no positive outside transfer has gone into a vault so far |
| StakingHistory.SubtractionsNeverSaturate | programs/nxs_staking/src/lib.rs:181-253 | on every run the subtraction from the staked total never saturates, and that from the staker count does not unless an earlier stake met a full counter |
| StakingHistory.CountRightIff | programs/nxs_staking/src/lib.rs:164-253 | throughout a run the staker count is the number of accounts not withdrawn if and only if no accepted stake meets a full 32-bit counter |
| StakingHistory.FewAccountsNeverFull | programs/nxs_staking/src/lib.rs:164-169 | on runs that end with fewer than 2^32 stake accounts no stake meets a full counter |
| StakingHistory.StakesOnlyAge | programs/nxs_staking/src/lib.rs:117-261 | between any two states of a run an account never disappears, only moves Active, Cooldown, Withdrawn, and keeps its terms |
| StakingHistory.StakesAtMostOnce | programs/nxs_staking/src/lib.rs:117-179 | no owner has two accepted stakes on any run |
| StakingHistory.StakeHasOrigin | programs/nxs_staking/src/lib.rs:149-163 | every account goes back to an accepted stake of its owner, whose amount, time and lockup it carries |
| StakingHistory.OnlyOutflow | programs/nxs_staking/src/lib.rs:209-253 | whenever a vault loses tokens it is its owner's withdrawal, of exactly the amount staked, no earlier than lockup plus three days after the stake |
| StakingHistory.WithdrawsAtMostOnce | programs/nxs_staking/src/lib.rs:209-253 | no owner has two accepted withdrawals on any run |
| StakingHistory.VotingPowerAlwaysRight | programs/nxs_staking/src/state.rs:64-78 | in every reachable state voting power is the product of amount and multiplier capped at 64 bits, and zero after withdrawal |
| StakingHistory.CooldownAlwaysPaysOut | programs/nxs_staking/src/lib.rs:209-261 | once an account cools down, its withdrawal is open from the end of the cooldown until it is made, whatever happens in between |
| StakingHistory.OnlyAuthorityAdministers | programs/nxs_staking/src/lib.rs:30-115 | every accepted administrative instruction is signed by the authority that an earlier accepted initialisation named |
| StakingHistory.FreezeInForce | programs/nxs_staking/src/lib.rs:263-292 | a frozen pool's timestamp is that of an accepted freeze with no unfreeze and no stake since |
| StakingHistory.CloseWaitsForMigration | programs/nxs_staking/src/lib.rs:294-320 | a pool with stake outstanding closes only 180 days or more after a freeze that no unfreeze and no stake followed |
| StakingHistory.ClosedIsFinal | programs/nxs_staking/src/lib.rs:117-320 | from the close on, closing time, staked total, epoch, snapshots, the set of accounts and every active account never change |
| StakingHistory.ActiveAtCloseNeverPaid | programs/nxs_staking/src/lib.rs:181-221 | an account active at the close never has a withdrawal accepted |
| StakingHistory.EpochsKeepPace | programs/nxs_staking/src/lib.rs:84-373 | the epoch start is always at least the initialisation time plus current epoch times duration |
| StakingHistory.SnapshotsSpaced | programs/nxs_staking/src/lib.rs:336-373 | on every run snapshots exist for exactly the epochs before the current one, successive ones at least a duration apart |
| StakingHistory.ResetFollowsProposal | programs/nxs_staking/src/guard.rs:77-88 | every accepted guard reset follows the latest proposal, with no reset between, by at least 24 hours |
| StakingHistory.ResetsSpaced | programs/nxs_staking/src/guard.rs:50-88 | two accepted resets are at least 24 hours apart |
| StakingLiveness.StakeAcceptedExactly | programs/nxs_staking/src/lib.rs:117-179 | on every run over a 64-bit supply a stake goes through exactly when it is the owner's first, the pool is open and not frozen, the wallet has the positive amount and the lockup is within 7 to 365 days; the pause flag and the staked total never stand in the way |
| StakingLiveness.UnstakeAcceptedExactly | programs/nxs_staking/src/lib.rs:181-199 | on every run an active account's unstake goes through exactly from the end of the lockup of the stake it goes back to, while the pool is not closed and the cooldown fits 64 bits |
| StakingLiveness.StakePaysOut | programs/nxs_staking/src/lib.rs:181-261 | from stake to payout: an unstake begun at any time from the end of the lockup opens the withdrawal of the staked amount three days later for good, whatever happens in between, unless the pool closed before the unstake |
| StakingLiveness.StakePaysExactly | programs/nxs_staking/src/lib.rs:135-163 | an accepted stake moves its amount from the named wallet into a new vault, and no other balance changes |
| StakingLiveness.WithdrawPaysExactly | programs/nxs_staking/src/lib.rs:227-245 | an accepted withdrawal moves the amount of the owner's stake from its vault to the named account, and no other balance changes |
| StakingLiveness.CloseUnfrozenExactly | programs/nxs_staking/src/lib.rs:294-320 | without a freeze in force the authority can close exactly when nobody's stake is active |
| StakingLiveness.CloseFrozenExactly | programs/nxs_staking/src/lib.rs:294-320 | under a freeze it can close exactly when nobody's stake is active or 180 days have passed since that freeze, short of overflow |
| StakingLiveness.CloseHasOrigin | programs/nxs_staking/src/lib.rs:309-313 | a closed pool records the time of its accepted close |
| StakingLiveness.SnapshotAcceptedExactly | programs/nxs_staking/src/lib.rs:336-373 | the next snapshot goes through exactly for the authority of an open pool, an epoch duration after the pool began or the latest snapshot was taken, short of overflow |
| StakingLiveness.SnapshotHasOrigin | programs/nxs_staking/src/lib.rs:349-360 | every recorded snapshot has the voting power, staker count and time of one accepted request |
| StakingLiveness.AdminAcceptedExactly | programs/nxs_staking/src/lib.rs:30-115 | in every reachable state each administrative instruction goes through exactly for the authority when what it creates is missing and what it changes is there, with at most eight callers and none the default key |
| StakingLiveness.CallersInForce | programs/nxs_staking/src/lib.rs:37-68 | the callers allowed are those of the latest accepted list |
| StakingLiveness.PoolHasOrigin | programs/nxs_staking/src/lib.rs:84-115 | authority, reward rate and epoch duration are for good those of one accepted initialisation |
| StakingLiveness.ResetAcceptedExactly | programs/nxs_staking/src/lib.rs:75-80 | with a proposal in force the authority can reset exactly from 24 hours after the latest one on |
| JurorSelection.SnapshotPool | programs/dispute_arbitration/src/instructions/arbitrator.rs:124-168 | succeeds exactly for lists of one length that fit the pool with stakes that sum below 2^64, and stores their running totals |
| JurorSelection.RunningTotalsSorted | programs/dispute_arbitration/src/instructions/arbitrator.rs:138-149 | every stored list is sorted and gives the stakes back as differences; strictly sorted when all stakes are positive |
| JurorSelection.LandingInRange | programs/dispute_arbitration/src/state.rs:230-242 | every draw below the total lands on an index of the pool, between its neighbours' totals |
| JurorSelection.DrawFairness | programs/dispute_arbitration/src/state.rs:230-242 | with positive stakes exactly the draws in (total before i, total at i] reach index i, so their number is the stake, plus one for the first index and less one for the last |
| JurorSelection.LandsOnLeastTotal | programs/dispute_arbitration/src/state.rs:230-242 | on every sorted list, empty stakes included, a draw lands on an index with the least running total that reaches it |
| JurorSelection.EmptyStakeDrawnExactly | programs/dispute_arbitration/src/state.rs:230-242 | a juror without stake is landed on by no draw but its running total, and by some draw under some conforming search if and only if the total grows after it |
| JurorSelection.LaterStake | programs/dispute_arbitration/src/instructions/arbitrator.rs:138-149 | the total grows after an index if and only if some later juror has stake |
| JurorSelection.ZeroStakeCanBeDrawn | programs/dispute_arbitration/src/state.rs:239-242 | the smallest instance: of stakes 0 and 5 the first is drawn by every conforming search |
| JurorSelection.ProbeFree | programs/dispute_arbitration/src/state.rs:244-253 | stops within n attempts at the first untaken index going around, and exhausts them only if every place on the way round is taken |
| JurorSelection.FullTurn | programs/dispute_arbitration/src/state.rs:244-253 | a full turn over taken places means all n jurors are taken |
| JurorSelection.WeightedSelect | programs/dispute_arbitration/src/state.rs:213-257 | terminates with min(count, n) distinct indices below n, each the first free one after its landing place |
| JurorSelection.SelectionPrefix | programs/dispute_arbitration/src/state.rs:230-257 | the landing places determine the selection, and a shorter selection is a prefix of a longer one |
| JurorSelection.PrefixStability | programs/dispute_arbitration/src/state.rs:213-257 | two runs with one VRF value and offset: the smaller panel is a prefix of the larger |
| JurorSelection.SelectionSize | programs/dispute_arbitration/src/state.rs:213-257 | exactly min(count, n) distinct jurors, all n of them once n seats are asked for |
| JurorSelection.CollectKeys | programs/dispute_arbitration/src/instructions/dispute.rs:148-156 | returns the selected keys in order exactly when no key comes twice |
| JurorSelection.SeatPanel | programs/dispute_arbitration/src/instructions/dispute.rs:126-156 | on a stored pool a panel is seated exactly when there are enough entries, some stake, and no selected key twice; it then has one key per seat |
| JurorDraws.DrawLeavesHash | programs/dispute_arbitration/src/state.rs:231-237 | a draw is the low half of the hash of VRF value and counter, less a multiple of the total, for every hash |
| JurorDraws.SeedReads | programs/dispute_arbitration/src/state.rs:231-234 | what is hashed reads back as VRF value and 64-bit counter, so no two draws share a seed |
| JurorDraws.RoundsShareSeedExactly | programs/dispute_arbitration/src/state.rs:231-234 | with one VRF value the two rounds share a seed if and only if the first has more than five seats and the second any |
| JurorDraws.DrawsNearlyEven | programs/dispute_arbitration/src/state.rs:235-237 | each draw below the total comes from the floor or the ceiling of 2^128 / total hash values, the ceiling exactly below the remainder |
| JurorDraws.HashShareExactly | programs/dispute_arbitration/src/state.rs:235-242 | the exact number of hash values that lead to each juror, for positive stakes |
| JurorDraws.HashShareFollowsStake | programs/dispute_arbitration/src/state.rs:235-242 | that number is the stake's share of 2^128, up to one stake unit and one value for each draw |
| JurorDraws.EveryHashHasJuror | programs/dispute_arbitration/src/state.rs:235-242 | every hash value leads to exactly one juror |
| JurorDraws.SeatFollowsHash | programs/dispute_arbitration/src/state.rs:230-255 | every seat goes to the juror to whom its own seed's hash leads, or to the first free one after it |
| MerkleClaims.VerifyProof | programs/fee_collector/src/state.rs:180-190 | the loop accepts exactly the proofs whose climb from the leaf ends at the root |
| MerkleClaims.Complete | programs/fee_collector/src/state.rs:180-190 | for every tree shape the sibling path of every leaf verifies against the root |
| MerkleClaims.NodePreimageSorted | programs/fee_collector/src/state.rs:183-187 | an inner node is hashed from both children, the numerically smaller one first |
| MerkleClaims.NodePreimageInjective | programs/fee_collector/src/state.rs:183-187 | one inner-node preimage determines the unordered pair of children |
| MerkleClaims.Sound | programs/fee_collector/src/state.rs:180-200 | a 48-byte preimage accepted against the root of a tree of 48-byte leaves is a leaf at the depth of the proof, or the extracted pair is a hash collision |
| MerkleClaims.ClaimPreimageReads | programs/fee_collector/src/state.rs:193-200 | a claim leaf reads back, by offset, as staker, amount and epoch |
| MerkleClaims.ClaimPreimageInjective | programs/fee_collector/src/state.rs:193-200 | the leaf layout determines staker, amount and epoch |
| MerkleClaims.ClaimSound | programs/fee_collector/src/state.rs:180-200 | an accepted claim is one of the committed claims for exactly that staker, amount and epoch, or a collision is exhibited |
| MerkleClaims.VotePreimageReads | programs/governance_program/src/state.rs:206-208 | a vote leaf reads back, by offset, as voter and weight |
| MerkleClaims.VotePreimageInjective | programs/governance_program/src/state.rs:206-208 | the vote leaf determines voter and weight |
| MerkleClaims.VoteSound | programs/governance_program/src/state.rs:194-208 | an accepted vote was in the snapshot with exactly that weight, or a collision is exhibited |
| FeeProgram.Program.HarvestFees | programs/fee_collector/src/instructions/collect_fees.rs:52-133 | the handler is the state machine's step on the newest epoch and the intake vault, for the amount that the harvest brought |
| FeeProgram.Program.RecordIntake | programs/fee_collector/src/instructions/record_intake.rs:23-96 | likewise for slash receipts and forfeits, which move no tokens |
| FeeProgram.Program.ProcessEpoch | programs/fee_collector/src/instructions/process_epoch.rs:78-232 | likewise, through every check, the four transfers and the opening of the next epoch |
| FeeProgram.Program.FanOut | programs/fee_collector/src/instructions/process_epoch.rs:124-191 | the four conditional transfers in sequence, or none when the intake vault runs short |
| FeeProgram.Program.CommitDistributionRoot | programs/fee_collector/src/instructions/commit_distribution.rs:27-68 | likewise; within two days of the split, once |
| FeeProgram.Program.ClaimStaker | programs/fee_collector/src/instructions/claim_staker.rs:51-131 | likewise, including the token account that the claim names |
| FeeProgram.Program.ExecuteBurn | programs/fee_collector/src/instructions/execute_burn.rs:36-87 | likewise; also on swept epochs |
| FeeProgram.Program.SweepStaleEpoch | programs/fee_collector/src/instructions/sweep_stale.rs:60-164 | likewise, crediting the next epoch whatever its status |
| FeeProgram.Program.SetDistributionParams | programs/fee_collector/src/instructions/set_params.rs:20-57 | likewise, with the 100% and cap checks |
| FeeProgram.Program.SetPausedFlag | programs/fee_collector/src/instructions/set_params.rs:71-88 | likewise |
| FeeHistory.BooksHold | programs/fee_collector/src/instructions/process_epoch.rs:78-232 | on every run from initialisation epochs are numbered without gaps, exactly the newest is open, and claim records add up to the claimed total within the staker amount |
| FeeInvariants.SplitAffordable | programs/fee_collector/src/instructions/process_epoch.rs:124-191 | the four transfers go through whenever the intake vault holds their sum, wherever grant and treasury go |
| FeeHistory.StakerVaultExactly | programs/fee_collector/src/instructions/sweep_stale.rs:84-131 | over splits, commits, claims, burns and sweeps of any number of epochs the staker vault holds exactly what split, unswept epochs owe, plus its first balance and what was paid in beside the books |
| FeeHistory.ClaimsNeverLackMoney | programs/fee_collector/src/instructions/claim_staker.rs:84-122 | on no run is a claim ever refused for lack of money |
| FeeHistory.BurnVaultExactly | programs/fee_collector/src/instructions/execute_burn.rs:45-77 | the burn vault holds exactly the burns due plus first balance and extra payments, less the burns made after a sweep had taken them back |
| FeeHistory.BurnsCoveredExactly | programs/fee_collector/src/instructions/execute_burn.rs:45-77 | the burns due are covered if and only if such late burns have not exceeded first balance and extra payments |
| FeeHistory.CoveredSweepsGoThrough | programs/fee_collector/src/instructions/sweep_stale.rs:84-154 | then no sweep lacks money |
| FeeHistory.CoveredBurnsGoThrough | programs/fee_collector/src/instructions/execute_burn.rs:38-77 | nor does a burn that is due |
| FeeHistory.IntakeExactly | programs/fee_collector/src/instructions/process_epoch.rs:98-191 | the intake vault holds exactly the open epoch's total plus first balance, extra payments and sweeps credited to closed epochs, less what was recorded without tokens |
| FeeHistory.BackedSplitsGoThrough | programs/fee_collector/src/instructions/record_intake.rs:23-52 | no split lacks money as long as recorded amounts do not exceed what is there beside the books |
| FeeHistory.LifeStepsOnce | programs/fee_collector/src/instructions/commit_distribution.rs:34-57 | each epoch is split, committed, burned and swept at most once on any run |
| FeeHistory.SweepWaitsForClaims | programs/fee_collector/src/instructions/sweep_stale.rs:72-84 | every accepted claim on a swept epoch came more than the grace period before the sweep |
| FeeHistory.SweepReachesSplitExactly | programs/fee_collector/src/instructions/sweep_stale.rs:101-106 | what a sweep takes back is credited to an epoch still to be split if and only if the next epoch is the newest |
| FeeHistory.ClosedNeverSplit | programs/fee_collector/src/instructions/process_epoch.rs:82-86 | an epoch no longer open is never split again, so a credit to it stays in the intake vault |
| FeeHistory.RunIsLater | programs/fee_collector/src/instructions/claim_staker.rs:51-131 | along any run of all instructions an epoch only moves forward; its amounts are fixed by the split, its root by the commit, and claim records stay |
| FeeHistory.PaidAtMostOnce | programs/fee_collector/src/instructions/claim_staker.rs:21-49 | no staker is paid twice for an epoch, on any run of all instructions |
| FeeHistory.RecordedClaimWasPaid | programs/fee_collector/src/instructions/claim_staker.rs:97-102 | every claim record goes back to one paid request of that amount |
| FeeHistory.OnlyCommittedClaimsPaid | programs/fee_collector/src/instructions/claim_staker.rs:78-102 | on every run whoever has been paid is owed exactly that by a claim under the committed root, or a request carries a collision |
| FeeHistory.HonestClaimAccepted | programs/fee_collector/src/instructions/claim_staker.rs:57-122 | on every run a claim with its own sibling path is paid exactly when it is the first for a committed epoch, in time, not too deep and within the epoch's amount |
| FeeSchedule.SplitFollowsRates | programs/fee_collector/src/instructions/process_epoch.rs:98-191 | on every run an accepted split records and pays the floors of the burn and staker rates, pays the floor of the grant rate and the rest to the configured accounts, and changes no other balance |
| FeeSchedule.SplitHasOrigin | programs/fee_collector/src/instructions/process_epoch.rs:107-116 | an epoch no longer open was split by one accepted event, at the time it records |
| FeeSchedule.StartHasOrigin | programs/fee_collector/src/instructions/process_epoch.rs:193-198 | every later epoch starts with the split of the one before |
| FeeSchedule.SplitsSpaced | programs/fee_collector/src/instructions/process_epoch.rs:88-96 | epochs in a row are split at least the configured duration apart |
| FeeSchedule.SplitAcceptedExactly | programs/fee_collector/src/instructions/process_epoch.rs:78-106 | while records are backed, a split goes through exactly for the newest epoch after its duration when not paused, short of overflow |
| FeeSchedule.IntakeAcceptedExactly | programs/fee_collector/src/instructions/record_intake.rs:23-52 | harvests go through exactly when not paused, records exactly for a listed caller and the newest epoch, short of overflow |
| FeeSchedule.CommitAcceptedExactly | programs/fee_collector/src/instructions/commit_distribution.rs:34-57 | a root goes through exactly for one of two authorities within two days of the split, before any other root and any sweep |
| FeeSchedule.CommitHasOrigin | programs/fee_collector/src/instructions/commit_distribution.rs:54-57 | the root of a committed epoch is that of one accepted commit by an authority |
| FeeSchedule.BurnAcceptedExactly | programs/fee_collector/src/instructions/execute_burn.rs:36-55 | while burns are covered, a split, unswept epoch is burned exactly when not burned yet and its total reaches the threshold |
| FeeSchedule.StaleBurnExactly | programs/fee_collector/src/instructions/execute_burn.rs:36-55 | a swept epoch's burn goes through on the same terms as long as the vault holds the amount |
| FeeSchedule.SweepAcceptedExactly | programs/fee_collector/src/instructions/sweep_stale.rs:60-106 | while burns are covered, a split epoch is swept exactly when not swept yet and seven days after its claim window, short of overflow |
| FeeSchedule.ClaimPaysExactly | programs/fee_collector/src/instructions/claim_staker.rs:97-122 | a claim moves its amount from the staker vault to the named account and nothing else |
| FeeSchedule.CollectedExactly | programs/fee_collector/src/instructions/sweep_stale.rs:101-106 | on every run an epoch's total is exactly what harvests, records and sweeps brought to it |
| FeeSchedule.TokensConserved | programs/fee_collector/src/instructions/execute_burn.rs:57-77 | on every run all tokens are the first ones plus harvests less burns |
| FeeSchedule.SettingsAcceptedExactly | programs/fee_collector/src/instructions/set_params.rs:20-88 | rates go through exactly for the meta authority, at 100% in all and within 20, 75, 30 and 30 percent, the pause flag exactly for its two signers; both take effect |
| FeeSchedule.StepSettings | programs/fee_collector/src/instructions/set_params.rs:20-88 | nothing else ever changes rates or pause flag, and rates within the caps stay so |
| BidCommitment.LowBytes | packages/handlers/src/crypto.ts:15-23 | for every BigInt, of any sign, the loop writes the low eight base-256 digits |
| BidCommitment.CommitHash | packages/handlers/src/crypto.ts:37-43 | the TypeScript commitment to any BigInt is the on-chain hash of its residue modulo 2^64 |
| BidCommitment.PreimageReads | programs/task_market/src/state.rs:247-250 | the 72 bytes read back, by offset, as amount, nonce and DID |
| BidCommitment.PreimageInjective | programs/task_market/src/state.rs:247-250 | the 72-byte preimage determines amount, nonce and DID |
| BidCommitment.Binding | programs/task_market/src/state.rs:247-250 | two different openings of one commitment are two preimages with one hash |
| BidCommitment.CommittedAmountOpens | packages/handlers/src/crypto.ts:15-43 | a commitment opens on chain exactly for the amount modulo 2^64, or by a collision; so for the amount itself iff it fits 64 bits |
| Auction.BeatsIsStrictTotalOrder | programs/task_market/src/state.rs:252-267 | the bid order is irreflexive, asymmetric, transitive, and total on different agents |
| Auction.OpenBidding | programs/task_market/src/instructions/open_bidding.rs:54-120 | refuses as the handler does, and otherwise makes a fresh book with its two windows and its bond, beside whatever bid accounts the task still has |
| Auction.OpenedWithinTerms | programs/task_market/src/instructions/open_bidding.rs:60-90 | accepted exactly for a funded task without a book, an allowed bond rate and two windows before the deadline; the overflow checks never decide |
| Auction.BondWithinTerms | programs/task_market/src/state.rs:238-245 | a bond is its rate's share of the payment rounded down; an allowed one is at most a twentieth of the payment and more than its two-hundredth less one unit |
| Auction.BidBook.CommitBid | programs/task_market/src/instructions/commit_bid.rs:112-215 | the handler is the state machine's step |
| Auction.BidBook.RevealBid | programs/task_market/src/instructions/reveal_bid.rs:36-95 | likewise; a wrong opening slashes and succeeds, a right one with an impossible amount fails |
| Auction.ScanBids | programs/task_market/src/instructions/close_bidding.rs:73-155 | the scanning loop gives the fold's leader or its first error |
| Auction.BidBook.CloseBidding | programs/task_market/src/instructions/close_bidding.rs:39-190 | the handler is the state machine's step |
| Auction.BidBook.ClaimBond | programs/task_market/src/instructions/claim_bond.rs:71-165 | likewise, including which token account the bond goes to |
| Auction.BidBook.CloseBidBook | programs/task_market/src/instructions/close_bid_book.rs:44-77 | refuses exactly unfinished books and non-empty escrows |
| AuctionProperties.OpenedInvExactly | programs/task_market/src/instructions/open_bidding.rs:95-109 | an opened book meets the invariant if and only if no bid account of the task is left from an earlier book |
| AuctionProperties.InvAlways | programs/task_market/src/instructions/reveal_bid.rs:36-95 | on every run of instructions and outside payments from such a book the reveal count is the number of revealed bids, each with an opening behind it, and the escrow covers one bond per unclaimed bid and a retained one |
| AuctionProperties.ScanLeads | programs/task_market/src/instructions/close_bidding.rs:80-155 | the scan accepts exactly the duplicate-free lists of good entries, and its leader is one of them that none beats |
| AuctionProperties.CloseAcceptsExactly | programs/task_market/src/instructions/close_bidding.rs:49-155 | while the reveal count is right, a close in time is accepted exactly for complete duplicate-free enumerations of the revealed bids |
| AuctionReopening.CountShortByLeftovers | programs/task_market/src/instructions/reveal_bid.rs:82-87 | on every run of a reopened book the reveal count is short by exactly the revealed leftover bids, so it is right if and only if there are none |
| AuctionReopening.LeftoverMiscounts | programs/task_market/src/instructions/reveal_bid.rs:36-95 | a reopened book with one revealed leftover and one honest bid counts one of the two |
| AuctionReopening.RevealedLeftoverDisplaces | programs/task_market/src/instructions/close_bidding.rs:65-155 | such a book accepts a close that lists the leftover in place of the counted bid, and the leftover wins |
| AuctionReopening.CancelledLeavesDormant | programs/task_market/src/instructions/close_bid.rs:34-45 | a cancelled auction whose bond was claimed can be closed with its bid account left behind, refunded and unrevealed |
| AuctionReopening.DormantBidWins | programs/task_market/src/instructions/reveal_bid.rs:36-95 | in the task's next book that bid is revealed without a bond and can win; the settled book then has an empty escrow and can be closed |
| AgentIdentity.DidPreimageReads | programs/agent_registry/src/state.rs:210-214 | the DID preimage reads back, by offset, as operator, agent id and manifest |
| AgentIdentity.DidPreimageInjective | programs/agent_registry/src/state.rs:210-214 | the DID preimage determines operator, agent id and manifest |
| AgentIdentity.OneAgentPerDid | programs/agent_registry/src/state.rs:210-214 | two registered accounts with one DID are one account, or a hash collision |
| AuctionProperties.DifferentAgents | programs/task_market/src/instructions/commit_bid.rs:76-83 | different bidders stand with different agents, so the order is total on them, or two registered agents collide |
| AuctionProperties.WinnerBeatsAll | programs/task_market/src/instructions/close_bidding.rs:134-179 | in every state of the invariant the winner beats every other revealed bid, at the amount it committed to, or two registered agents have colliding DIDs; the book is cancelled exactly when nobody revealed |
| AuctionProperties.OutcomeOrderIndependent | programs/task_market/src/instructions/close_bidding.rs:80-179 | in every state of the invariant any two accepted enumerations with the stakes of one moment give the same book, up to the same collisions |
| AuctionOutcome.CheapestListedWins | programs/task_market/src/state.rs:252-267 | an accepted close names a listed bid at its amount, such that no listed one is cheaper, none as cheap has more stake, and none alike in both a numerically smaller agent key |
| AuctionOutcome.CheapestRevealedWins | programs/task_market/src/instructions/close_bidding.rs:134-179 | while the reveal count is right, that is the cheapest of all revealed bids, and the book is cancelled exactly when there is none |
| AuctionOutcome.StakeThenKeyBreakTies | programs/task_market/src/state.rs:260-266 | on equal amounts the registry's stakes decide and then its keys, for all revealed bids, or two registered agents have colliding DIDs |
| AuctionOutcome.SettledOnCheapest | programs/task_market/src/instructions/close_bidding.rs:134-179 | on every run of a book of a task without revealed leftovers a settled book names the cheapest of all bids ever revealed in it, for its amount |
| AuctionTiming.AcceptedInWindow | programs/task_market/src/instructions/commit_bid.rs:153-158 | on every run commits are accepted only in the first window, reveals only in the second, the close only after both |
| AuctionTiming.CommitOpenExactly | programs/task_market/src/instructions/commit_bid.rs:112-165 | on every run a new bidder with its own agent and the bond gets in exactly during the commit window while fewer than 64 have; the phase never decides |
| AuctionTiming.RevealOpenExactly | programs/task_market/src/instructions/reveal_bid.rs:41-80 | on every run a reveal of an untouched bid is taken exactly in its window, unless it opens to an amount the task cannot pay; the phase never decides |
| AuctionTiming.AttemptSeals | programs/task_market/src/instructions/reveal_bid.rs:53-75 | the first accepted reveal, even a slashing one, seals bidders, commitments and later outcomes for the rest of the run |
| AuctionTiming.HonestBidCounts | programs/task_market/src/instructions/reveal_bid.rs:36-87 | a bid committed to a payable amount is counted at that amount when first opened inside the reveal window, whatever else has happened |
| AuctionProperties.SealedAfterFirstReveal | programs/task_market/src/instructions/reveal_bid.rs:53-95 | from the first reveal attempt on no bid joins, no commitment changes, and revealed and slashed bids stay so, on every run |
| AuctionProperties.RevealCountsHonestOpening | programs/task_market/src/instructions/reveal_bid.rs:36-95 | an open bid is counted exactly for a right opening inside the window with a payable amount, slashed exactly for a wrong one inside it, and no other bid is touched |
| AuctionProperties.SettlementIsFinal | programs/task_market/src/instructions/close_bidding.rs:159-179 | after the close phase, winner and revealed amounts never change, and a returned bond stays returned |
| AuctionBonds.SupplyConserved | programs/task_market/src/instructions/claim_bond.rs:114-154 | no run changes the sum over the escrow and all token accounts |
| AuctionBonds.EscrowExactly | programs/task_market/src/instructions/claim_bond.rs:71-154 | at every moment of a run from a book without leftover bids the escrow holds exactly the bonds held plus what outside payments and claims naming the escrow as fee account put in |
| AuctionBonds.BondsAlwaysClaimable | programs/task_market/src/instructions/claim_bond.rs:71-154 | after the close every bond is claimable exactly once and the escrow always suffices; a settled auction slashes exactly those who never opened and retains exactly the winner's bond, a cancelled one refunds everybody |
| AuctionBonds.ClaimBrings | programs/task_market/src/instructions/claim_bond.rs:81-154 | what a claim adds to all the bidder's accounts together: the bond for a refund, nothing for the winner, and for a slashed bid what the named fee account returns |
| AuctionBonds.BondsMoveExactly | programs/task_market/src/instructions/claim_bond.rs:114-154 | token account by token account, what a claim pays and what a commit takes |
| AuctionBonds.ClaimMarks | programs/task_market/src/instructions/claim_bond.rs:106-112 | once claimed, a bid of a settled book is marked slashed exactly when it was never opened |
| AuctionBonds.SlashLeavesBidderExactly | programs/task_market/src/instructions/claim_bond.rs:56-57 | a slashed bond leaves its bidder if and only if the fee account named in the claim is not the bidder's own |
| AuctionBonds.SlashedBondCanComeBack | programs/task_market/src/instructions/claim_bond.rs:56-154 | the condition can fail in every settled book with an unopened, unclaimed bid: naming another account of its own brings the bidder the whole bond |
| AuctionBonds.BookClosesExactly | programs/task_market/src/instructions/close_bid_book.rs:44-54 | in every state of the invariant a book's accounts can be closed exactly when nothing extra is in the escrow and it has no bonds or was cancelled and all of them are claimed |
| AuctionBonds.SettledBookNeverCloses | programs/task_market/src/instructions/close_bid_book.rs:51-54 | from a settled state of the invariant with bonds, closing is refused on every run |
| FieldBytes.ModuliValues | programs/proof_verifier/src/state.rs:8-22 | the byte tables denote the two BN254 primes, the second being the one the scripts reduce by |
| FieldBytes.SubtractBytes | programs/proof_verifier/src/pairing.rs:38-47 | the 16-bit borrow loop subtracts up to one turn of 256^width, for any width |
| FieldBytes.NegateG1 | programs/proof_verifier/src/pairing.rs:30-50 | keeps x and writes q - y modulo 2^256, or zero for zero, for all 64-byte inputs |
| FieldBytes.NegatedYIsFieldNegative | programs/proof_verifier/src/pairing.rs:30-50 | for y in the field it is the field negative |
| FieldBytes.NegatedTwice | programs/proof_verifier/src/pairing.rs:30-50 | negating twice is the identity exactly when y is not the modulus |
| FieldBytes.ScalarInField | programs/proof_verifier/src/state.rs:80-89 | accepts exactly the values below the scalar modulus |
| FieldBytes.ScriptFieldElementToBytes | scripts/smoke_devnet_verify_claim.ts:128-136 | the bytes denote the BigInt modulo 2^256 |
| FieldBytes.SdkFieldElementToBytes | packages/sdk-ui/src/settlement.ts:151-162 | refuses exactly the negative and the too wide, and is exact on the rest |
| FieldBytes.AccumulateBytes | scripts/smoke_devnet_verify_claim.ts:138-144 | the accumulated number is the big-endian value |
| FieldBytes.CanonicalFieldBytes | scripts/smoke_devnet_verify_claim.ts:149-161 | keeps the residue modulo r of byte strings of any length |
| FieldBytes.CanonicalThenChecked | scripts/smoke_devnet_verify_claim.ts:149-161 | what the reducer writes always passes the on-chain range check, and is the input exactly when that passed already |
| FieldBytes.RoundTrip | packages/sdk-ui/src/settlement.ts:151-162 | encoding and decoding undo each other in both directions |
| PairingGroup.PairScale | programs/proof_verifier/src/pairing.rs:16-23 | pairing a multiple of a point is a power of the pairing |
| PairingGroup.NegatedDecodes | programs/proof_verifier/src/pairing.rs:30-50 | the byte-level negation of anything that decodes decodes to the group negative |
| PairingGroup.NegatedDecodesWrongly | programs/proof_verifier/src/pairing.rs:30-50 | bytes that do not decode have a negation that does exactly when y is the modulus and the point with y = 0 exists |
| Groth16.AccumulateInputs | programs/proof_verifier/src/pairing.rs:59-64 | the loop computes the byte form of the input point, or fails with the first failing syscall |
| Groth16.InputPointRight | programs/proof_verifier/src/pairing.rs:59-64 | under a key that decodes it never fails and decodes to IC_0 + sum of x_i * IC_{i+1} |
| Groth16.OneInputChanges | programs/proof_verifier/src/pairing.rs:59-64 | exchanging the input at k exchanges the multiple of the key point at k + 1 and nothing else |
| Groth16.ZeroInputs | programs/proof_verifier/src/pairing.rs:59-64 | without inputs, or with all of them zero, the first key point is left |
| Groth16.BufferParses | programs/proof_verifier/src/pairing.rs:68-88 | the 768 bytes read back as exactly the four pairs in order (pair layout of EIP-197, section "Encoding") |
| Groth16.VerifyGroth16 | programs/proof_verifier/src/pairing.rs:52-92 | the imperative verifier, filling its buffer by offset, gives the verdict of its specification |
| Groth16.VerifyIffEquation | programs/proof_verifier/src/pairing.rs:52-92 | when all points decode, the verdict is acceptance exactly when e(A, B) = e(alpha, beta) e(X, gamma) e(C, delta) |
| Groth16.MalformedExactly | programs/proof_verifier/src/pairing.rs:59-91 | a proof is malformed exactly when the negated A, B or C does not decode |
| Groth16Batch.CheckInputs | programs/proof_verifier/src/instructions/batch_verify.rs:122-127 | passes exactly when every input is below the scalar modulus |
| Groth16Batch.OpenBatch | programs/proof_verifier/src/instructions/batch_verify.rs:44-75 | refuses when paused or for a size outside 1..10, and otherwise opens an empty batch under the active key with the derived seed |
| Groth16Batch.OpeningPreimageReads | programs/proof_verifier/src/instructions/batch_verify.rs:66-71 | what the seed is hashed from reads back, by offset, as batch id, cranker and slot |
| Groth16Batch.SeedsDiffer | programs/proof_verifier/src/instructions/batch_verify.rs:66-71 | two batches share a seed only if they share id, cranker and slot, or collide |
| Groth16Batch.AddChecked | programs/proof_verifier/src/instructions/batch_verify.rs:111-127 | an addition succeeds only when running, under the batch's own active key and, on mainnet, a production key; then it is the plain addition |
| Groth16Batch.BatchState.Add | programs/proof_verifier/src/instructions/batch_verify.rs:99-171 | the handler is the specification's addition with all its checks; a refused proof leaves the batch as it was |
| Groth16Batch.FinalizeChecked | programs/proof_verifier/src/instructions/batch_verify.rs:199-230 | finalising succeeds exactly when running, under the batch's own active key, and the final check does |
| Groth16Batch.BatchState.Close | programs/proof_verifier/src/instructions/batch_verify.rs:194-239 | the final check over n + 3 pairs gives the specification's verdict |
| Groth16Batch.FillsExactly | programs/proof_verifier/src/instructions/batch_verify.rs:99-171 | a batch takes exactly the sequences, not too long, of proofs that are addable on their own |
| Groth16Batch.FilledRepresents | programs/proof_verifier/src/instructions/batch_verify.rs:129-168 | after any accepted proofs the accumulators decode to the weighted sums |
| Groth16Batch.BatchAlgebra | programs/proof_verifier/src/instructions/batch_verify.rs:204-230 | the product of the aggregated pairings is the product of each proof's residual to the power of its weight |
| Groth16Batch.BatchAccepts | programs/proof_verifier/src/instructions/batch_verify.rs:194-239 | a batch is accepted exactly when that weighted product is one |
| Groth16Batch.ValidBatchAccepted | programs/proof_verifier/src/instructions/batch_verify.rs:194-239 | a batch of valid proofs is accepted whatever the weights |
| Groth16Batch.LastProofDecides | programs/proof_verifier/src/instructions/batch_verify.rs:11-21 | if all but the last proof are valid, the batch is taken and its acceptance hangs exactly on the last weight killing the last residual |
| Groth16Batch.WeightIgnoresLast | programs/proof_verifier/src/instructions/batch_verify.rs:129-167 | the weight of a proof does not depend on that proof, only on the seed and the proofs before it |
| Groth16BatchWeights.WeightIsHashed | programs/proof_verifier/src/instructions/batch_verify.rs:11-21 | the first weight is one, and every later one is the hash of running state and position modulo 2^128 |
| Groth16BatchWeights.StateBindsHistory | programs/proof_verifier/src/instructions/batch_verify.rs:165-167 | one running state means one seed and the same points in every earlier proof, or an exhibited collision |
| Groth16BatchWeights.HistoryFixesState | programs/proof_verifier/src/instructions/batch_verify.rs:165-167 | nothing else has a part in the state, the public inputs included |
| Groth16BatchWeights.EqualWeights | programs/proof_verifier/src/instructions/batch_verify.rs:11-21 | equal later weights need one history, a collision of the states, or two different strings whose hashes agree modulo 2^128; at different positions the latter |
| Groth16BatchWeights.EqualWeightsAcrossBatches | programs/proof_verifier/src/instructions/batch_verify.rs:66-167 | down to the opening: equal weights at one position of two batches need the same id, cranker, slot and points, or one of three coincidences |
| Groth16Batch.LastResidualExactly | programs/proof_verifier/src/instructions/batch_verify.rs:129-230 | with any proofs, valid or not, a batch is accepted exactly when the last weighted residual is the inverse of that of the rest |
| Groth16Batch.AcceptedPair | programs/proof_verifier/src/instructions/batch_verify.rs:129-230 | a pair is accepted exactly when the second weighted residual is the inverse of the first residual |
| Groth16BatchSoundness.SoundForOne | programs/proof_verifier/src/instructions/batch_verify.rs:194-239 | an accepted batch of one proof has a valid proof |
| Groth16BatchSoundness.MovedInvalid | programs/proof_verifier/src/pairing.rs:52-92 | moving the third point of a valid proof by d makes it invalid exactly when d pairs with delta to other than one |
| Groth16BatchSoundness.AcceptedThoughInvalid | programs/proof_verifier/src/instructions/batch_verify.rs:129-230 | the input on which acceptance does not mean validity, for every size from two on: an accepted batch whose first proof is invalid |
| Groth16BatchSoundness.OffsetExists | programs/proof_verifier/src/instructions/batch_verify.rs:11-21 | such inputs exist as soon as some point that matters to the pairing is not lost by the weight that follows it |
| Groth16BatchSoundness.SoundExactlyAlone | programs/proof_verifier/src/instructions/batch_verify.rs:194-239 | given one valid proof and one such point, every accepted batch of n proofs has only valid ones if and only if n is one |
| Groth16Batch.BatchOfOne | programs/proof_verifier/src/instructions/batch_verify.rs:194-239 | a batch of one proof is accepted exactly when the proof alone is |
| SigningLimiter.Guardrails.CheckVelocity | packages/handlers/src/guardrails.ts:11-18 | leaves the queue without its stale front and answers whether it is below the limit |
| SigningLimiter.Guardrails.EnforceGuardrails | packages/handlers/src/guardrails.ts:24-40 | verdict and new queue, with the two separate clock readings |
| SigningLimiter.PurgeAfterPurge | packages/handlers/src/guardrails.ts:14-16 | purging what an earlier purge left is the same as restricting the whole history |
| SigningLimiter.QueueRefinesHistory | packages/handlers/src/guardrails.ts:9-44 | on every run with a clock that never goes back, the queue is the history since the reset restricted to the last window checked, and gives the verdicts of the full history |
| SigningLimiter.RejectedIffWindowFull | packages/handlers/src/guardrails.ts:24-40 | a call within the cap is rejected exactly when the window already holds the limit |
| SigningLimiter.DefaultVerdict | packages/handlers/src/guardrails.ts:6-40 | without options: over a million lamports is refused, and otherwise a call is accepted exactly when fewer than ten acceptances lie in the last sixty seconds |
| SigningLimiter.GivenLimits | packages/handlers/src/guardrails.ts:24-40 | the same with whichever of the two limits the options give |
| SigningLimiter.RateNeverExceeded | packages/handlers/src/guardrails.ts:9-44 | under a fixed limit no closed 60-second window ever contains more accepted signatures since the reset |
| CivicToken.Decode | programs/agent_registry/src/civic.rs:33-60 | the cursor-based decoder accepts and returns what the positional parser does, never reading out of bounds |
| CivicToken.EncodedLayout | programs/agent_registry/src/civic.rs:14-22 | the offset of every retained field, for every combination of optional keys |
| CivicToken.DecodeEncode | programs/agent_registry/src/civic.rs:14-60 | for every combination of optional fields decoding an encoding gives the retained fields, with any bytes appended |
| CivicToken.AcceptedIsEncoding | programs/agent_registry/src/civic.rs:33-122 | every accepted input starts with the encoding of a record with those retained fields |
| CivicToken.AcceptsExactlyEncodings | programs/agent_registry/src/civic.rs:33-122 | a token is decoded exactly from the inputs that start with one of its encodings |
| CivicToken.StrictPrefixRejected | programs/agent_registry/src/civic.rs:80-122 | every strict prefix of an encoding is rejected |
| CivicToken.EncodedTokenVerdict | programs/agent_registry/src/civic.rs:62-78 | an encoded record passes both checks exactly when active with no expiry or a later one |
| ReputationAverage.Ewma | programs/agent_registry/src/state.rs:223-237 | fails exactly for a weight above 100%, otherwise lies between the old value and the sample |
| ReputationAverage.GapLeft | programs/agent_registry/src/state.rs:223-237 | a step leaves the prior's weight of the gap, plus less than one unit of rounding |
| ReputationAverage.GapShrinksGeometrically | programs/agent_registry/src/state.rs:223-237 | after n averages at least the n-th power of the prior's weight is left of the gap to the sample |
| ReputationAverage.RestIsFixed | programs/agent_registry/src/state.rs:223-237 | the fixed points are exactly the scores at or less than one weighted unit below the sample |
| ReputationAverage.ScoreSettles | programs/agent_registry/src/state.rs:223-237 | with a constant sample the score is at rest after at most as many steps as it was away, on the sample itself when it started above |
| ReputationAverage.FallsStrictly | programs/agent_registry/src/state.rs:223-237 | from above every step falls strictly until the sample is reached |
| Fees.FeesWithinCaps | programs/task_market/src/state.rs:319-336 | within 1% rates fees can be taken exactly from positive amounts, and leave something |
| Fees.FeesTakenExactly | programs/task_market/src/state.rs:319-336 | for any rates: success exactly when both floors together stay below the amount, and each fee is the floor of its own rate |
| Fees.SplittingSavesLittle | programs/task_market/src/state.rs:319-336 | splitting a payment into k parts never raises a fee total and lowers it by less than k |
| Fees.SplitConserves | programs/fee_collector/src/state.rs:163-177 | with rates summing to 100% nothing is lost, truncated or saturated, and the treasury gets at most three units over its own floor |
| Fees.SplitConservesExactly | programs/fee_collector/src/state.rs:164-177 | for any rates the parts add up exactly when the first three do not exceed the total |
| TemplateEconomics.SharesAddUp | packages/sdk-ui/src/template-simulator.ts:52-54 | the share of n rewards exceeds n single shares by less than n |
| TemplateEconomics.RentalCostsExactly | packages/sdk-ui/src/template-simulator.ts:60-75 | a rental costs its price for every second of at most ten years and the platform's floored share of that |
| TemplateEconomics.RentNetNearEstimate | packages/sdk-ui/src/template-simulator.ts:70-86 | rent net plus fixed cost lies strictly between n contributions less 2n and n contributions plus n |
| TemplateEconomics.BreakEvenIsLeast | packages/sdk-ui/src/template-simulator.ts:86-90 | the break-even count exists exactly for positive cost and contribution, and is the least count that covers the cost |
| TemplateEconomics.BreakEvenNearlyBreaksEven | packages/sdk-ui/src/template-simulator.ts:60-90 | at or above break-even the rental loses less than two units a task |
| TemplateEconomics.RecommendationFollowsCosts | packages/sdk-ui/src/template-simulator.ts:78-94 | the recommendation is the cheaper option when the month earns more than it costs, and to wait otherwise |

## Left out

- StakingProgram.Program.StakeTokens: assumes a mint without transfer fee or permanent delegate, so transfers are exact; the same holds for bonds and claims.
- StakingLiveness.StakePaysOut: once the unstake has begun; a pool that closes before shuts it for good, as `ActiveAtCloseNeverPaid` says.
- StakingLiveness.StakeAcceptedExactly: for supplies below 2^64, as the token program keeps them.
- StakingProgram.Program.TakeSnapshot: does not relate the recorded voting power and staker count to the accounts, because the caller supplies both freely.
- JurorSelection.WeightedSelect: models `binary_search` by its documented contract, so among equal running totals any position may be reported.
- FeeSchedule.SplitAcceptedExactly: needs recorded amounts to be backed; otherwise a split may also lack money.
- FeeSchedule.BurnAcceptedExactly: needs late burns to be covered; `BurnsCoveredExactly` says when they are.
- FeeSchedule.SweepAcceptedExactly: needs late burns to be covered.
- FeeProgram.Program.HarvestFees: takes the harvested amount as given; the token extension that withholds it, and the confidential variant, are not part of this model.
- FeeProgram.Program.RecordIntake: folds the list of calling programs into one flag.
- FeeHistory.BackedSplitsGoThrough: says when splits have the money, not that recorded amounts are ever backed; the programs that record them are not part of this model.
- JurorDraws.HashShareFollowsStake: counts hash values; that a hash hits them evenly is not a property of any one function.
- Groth16BatchWeights.EqualWeights: says what a coincidence of weights takes, not how likely it is.
- Groth16BatchSoundness.SoundForOne: speaks of proofs whose points decode; `NegatedDecodesWrongly` names the bytes outside that.
- Groth16BatchSoundness.SoundExactlyAlone: assumes a valid proof and a point that the weight after it does not lose; under a hash that loses every such point the failing direction is open.
- Auction.BidBook.CommitBid: folds the pause flag, agent status, capability bit, personhood tier and hook allow-list into one flag of the request.
- Auction.BidBook.CloseBidding: takes the remaining accounts as pairs, so an odd number of them is not expressible; the reentrancy guard and the write-back of winner and status to the task are not modelled.
- Auction.BidBook.ClaimBond: the hook allow-list is not modelled, and the framework's own rules on naming one account twice are not relied on.
- AuctionProperties.InvAlways: starts from a book without leftover bids, as `OpenedInvExactly` says it must; cancelling a book without commits is not modelled; that commits come from agents the registry wrote is a condition on the run.
- AuctionProperties.CloseAcceptsExactly: needs a right reveal count, which a reopened book has exactly when no leftover bid was revealed.
- AuctionBonds.EscrowExactly: starts from a book without leftover bids.
- AuctionBonds.BookClosesExactly: needs the invariant; `DormantBidWins` is a book without it that closes.
- AuctionBonds.SettledBookNeverCloses: needs the invariant; `DormantBidWins` is a book without it that closes.
- Auction.OpenBidding: takes the leftover bid accounts as given; who closes which account when is up to the bidders.
- AuctionProperties.WinnerBeatsAll: needs the invariant; the stakes compared are those at the moment of the close.
- AuctionProperties.DifferentAgents: a DID shared by two registered agents appears as a hash collision in the conclusion.
- AuctionProperties.OutcomeOrderIndependent: compares enumerations under the stakes of one moment; stakes that change between two attempts can change the tie-break.
- Groth16Batch.BatchState.Add: takes the number of public inputs to be one less than the number of IC points, as registration enforces.
- Groth16Batch.LastProofDecides: says nothing about the probability that a weight kills a residual.
- SigningLimiter.RateNeverExceeded: counts acceptances since the last reset; a reset forgets the earlier ones.
- TemplateEconomics.BreakEvenIsLeast: whole-number inputs; the conversion of JavaScript numbers and strings, the loss of precision above 2^53, and the derived display fields are left out.
- FieldBytes.SdkFieldElementToBytes: starts from a BigInt; parsing decimal strings and joining point coordinates are left out.
- Hex conversion and the other helpers of the TypeScript packages: string handling only.
- Guard entry, exit and callee checks: flag tests without an invariant beyond their own lines; no staking handler calls them.
- Slash bound, capability and vote-commitment formulas: single expressions.
- Borsh and Anchor serialisation, account addresses and signatures: their consequences are kept (an `init` key is fresh, a signer is who it says, an account sits at its own key).
- SHA-256, Keccak and the curve syscalls: any hash of the right width, any curve with the stated laws.
- Task escrow, dispute voting and tally, slashing, treasury, template rental and yield programs: not part of this model.
- Clients, indexers, user interfaces and scripts around the programs: not part of this model.
