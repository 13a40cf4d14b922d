/** The fee collector as a state machine: epochs that collect fees, are split over four buckets, get a
    root committed, pay their stakers, burn their share and are swept when they go stale. */
module FeeEpochs {
  import opened Wrappers
  import opened Bytes
  import Fees
  import opened MerkleClaims

  const DAY: int := 86_400
  const SWEEP_GRACE_SECS: int := 7 * DAY
  const DISTRIBUTION_WINDOW_SECS: int := 2 * DAY
  const BURN_CAP_BPS: nat := 2_000
  const STAKER_CAP_BPS: nat := 7_500
  const GRANT_CAP_BPS: nat := 3_000
  const TREASURY_CAP_BPS: nat := 3_000

  datatype Status = Open | Splitting | DistributionCommitted | Stale

  /** An epoch account with the claim records that belong to it. */
  datatype Epoch = Epoch(
    status: Status,
    startedAt: i64,
    closedAt: i64,
    totalCollected: u64,
    burnAmount: u64,
    burnExecuted: bool,
    stakerAmount: u64,
    root: bytes32,
    committed: bool,
    claimedTotal: u64,
    swept: bool,
    claims: map<Key, nat>)

  /** Token accounts of the fee mint: the program's three vaults and all others. */
  datatype Place = Intake | BurnVault | StakerVault | Wallet(id: Key)

  datatype Shares = Shares(burn: u16, staker: u16, grant: u16, treasury: u16)

  datatype Config = Config(
    authority: Key,
    metaAuthority: Key,
    emergencyCouncil: Key,
    grantTo: Place,
    treasuryTo: Place,
    shares: Shares,
    epochDuration: i64,
    claimWindow: i64,
    minBurn: u64,
    nextEpochId: u64,
    paused: bool)

  datatype Ledger = Ledger(config: Config, epochs: map<u64, Epoch>, tokens: map<Place, nat>)

  datatype ClaimRequest = ClaimRequest(id: u64, staker: Key, amount: u64, proof: seq<bytes32>, destination: Place)

  /** `Records` stands for slash receipts and forfeits: callers on the list report an amount, and no
      tokens move. `Pays` is a transfer by the owner of some token account. */
  datatype Instruction =
    | Collects(amount: u64)
    | Records(id: u64, amount: u64, registered: bool)
    | Process(id: u64)
    | Commit(id: u64, root: bytes32, signer: Key)
    | Claims(claim: ClaimRequest)
    | Burn(id: u64)
    | Sweep(id: u64)
    | SetShares(signer: Key, shares: Shares)
    | SetPaused(signer: Key, paused: bool)
    | Pays(from: Key, to: Place, sum: nat)

  datatype Error =
    | AccountMissing
    | AlreadyInUse
    | Unauthorized
    | Paused
    | EpochNotOpen
    | EpochNotElapsed
    | InvalidEpochStatus
    | DistributionAlreadyCommitted
    | DistributionWindowElapsed
    | MerkleProofTooDeep
    | ClaimWindowElapsed
    | MerkleProofInvalid
    | ClaimOverflow
    | BurnAlreadyExecuted
    | BurnBelowThreshold
    | AlreadySwept
    | SweepGraceNotElapsed
    | InvalidBpsSum
    | BucketCapExceeded
    | ArithmeticOverflow
    | InsufficientFunds

  function FreshEpoch(now: i64): Epoch {
    Epoch(Open, now, 0, 0, 0, false, 0, BeBytes(0, 32), false, 0, false, map[])
  }

  // ----- token movements

  function Move(tokens: map<Place, nat>, from: Place, to: Place, amount: nat): map<Place, nat>
    requires from in tokens && to in tokens && tokens[from] >= amount
  {
    var mid := tokens[from := tokens[from] - amount];
    mid[to := mid[to] + amount]
  }

  /** A transfer that is skipped when nothing is due. */
  function Send(tokens: map<Place, nat>, from: Place, to: Place, amount: nat): (r: Option<map<Place, nat>>)
    requires from in tokens && to in tokens
    ensures r.Some? ==> r.value.Keys == tokens.Keys
  {
    if amount == 0 then Some(tokens)
    else if tokens[from] < amount then None
    else Some(Move(tokens, from, to, amount))
  }

  /** The four transfers of a split, out of the intake vault. */
  function SendSplit(tokens: map<Place, nat>, c: Config, s: Fees.Split): Option<map<Place, nat>>
    requires VaultsExist(tokens) && c.grantTo in tokens && c.treasuryTo in tokens
  {
    match Send(tokens, Intake, BurnVault, s.burn) { case None => None case Some(t1) =>
    match Send(t1, Intake, StakerVault, s.staker) { case None => None case Some(t2) =>
    match Send(t2, Intake, c.grantTo, s.grant) { case None => None case Some(t3) =>
      Send(t3, Intake, c.treasuryTo, s.treasury)
    }}}
  }

  predicate VaultsExist(tokens: map<Place, nat>) {
    Intake in tokens && BurnVault in tokens && StakerVault in tokens
  }

  predicate AllExist(l: Ledger) {
    VaultsExist(l.tokens) && l.config.grantTo in l.tokens && l.config.treasuryTo in l.tokens
  }

  function SplitOf(c: Config, total: u64): Fees.Split {
    Fees.ComputeBpsSplit(total, c.shares.burn, c.shares.staker, c.shares.grant, c.shares.treasury)
  }

  // ----- the first check that fails, if any

  function CurrentId(l: Ledger): u64 {
    SaturatingSub(l.config.nextEpochId, 1)
  }

  function CollectRefusal(l: Ledger, amount: u64): Option<Error> {
    if CurrentId(l) !in l.epochs || Intake !in l.tokens then Some(AccountMissing)
    else if l.config.paused then Some(Paused)
    else if l.epochs[CurrentId(l)].status != Open then Some(EpochNotOpen)
    else if l.epochs[CurrentId(l)].totalCollected + amount >= U64_LIMIT then Some(ArithmeticOverflow)
    else None
  }

  function RecordRefusal(l: Ledger, id: u64, amount: u64, registered: bool): Option<Error> {
    if id !in l.epochs then Some(AccountMissing)
    else if !registered then Some(Unauthorized)
    else if l.epochs[id].status != Open then Some(EpochNotOpen)
    else if l.epochs[id].totalCollected + amount >= U64_LIMIT then Some(ArithmeticOverflow)
    else None
  }

  function ElapsedRefusal(c: Config, e: Epoch, now: i64): Option<Error> {
    if c.paused then Some(Paused)
    else if e.status != Open then Some(EpochNotOpen)
    else if !FitsI64(e.startedAt + c.epochDuration) then Some(ArithmeticOverflow)
    else if now < e.startedAt + c.epochDuration then Some(EpochNotElapsed)
    else None
  }

  function ProcessRefusal(l: Ledger, id: u64, now: i64): Option<Error> {
    if id !in l.epochs || !AllExist(l) then Some(AccountMissing)
    else if l.config.nextEpochId in l.epochs then Some(AlreadyInUse)
    else if ElapsedRefusal(l.config, l.epochs[id], now).Some? then ElapsedRefusal(l.config, l.epochs[id], now)
    else if SendSplit(l.tokens, l.config, SplitOf(l.config, l.epochs[id].totalCollected)).None? then
      Some(InsufficientFunds)
    else if l.config.nextEpochId + 1 >= U64_LIMIT then Some(ArithmeticOverflow)
    else None
  }

  function CommitRefusal(l: Ledger, id: u64, signer: Key, now: i64): Option<Error> {
    if id !in l.epochs then Some(AccountMissing)
    else if signer != l.config.authority && signer != l.config.metaAuthority then Some(Unauthorized)
    else
      var e := l.epochs[id];
      if e.status != Splitting then Some(InvalidEpochStatus)
      else if e.committed then Some(DistributionAlreadyCommitted)
      else if !FitsI64(e.closedAt + DISTRIBUTION_WINDOW_SECS) then Some(ArithmeticOverflow)
      else if now >= e.closedAt + DISTRIBUTION_WINDOW_SECS then Some(DistributionWindowElapsed)
      else None
  }

  predicate ProofReaches(hash: HashFn, root: bytes32, q: ClaimRequest) {
    Climb(hash, hash(ClaimPreimage(q.staker, q.amount, q.id)), q.proof) == root
  }

  function ClaimRefusal(hash: HashFn, l: Ledger, q: ClaimRequest, now: i64): Option<Error> {
    if q.id !in l.epochs || StakerVault !in l.tokens || q.destination !in l.tokens then Some(AccountMissing)
    else
      var e := l.epochs[q.id];
      var deadline := e.closedAt + l.config.claimWindow;
      if q.staker in e.claims then Some(AlreadyInUse)
      else if |q.proof| > MAX_MERKLE_PROOF_DEPTH then Some(MerkleProofTooDeep)
      else if e.status != DistributionCommitted then Some(InvalidEpochStatus)
      else if !FitsI64(deadline) then Some(ArithmeticOverflow)
      else if now >= deadline then Some(ClaimWindowElapsed)
      else if !ProofReaches(hash, e.root, q) then Some(MerkleProofInvalid)
      else if e.claimedTotal + q.amount >= U64_LIMIT then Some(ArithmeticOverflow)
      else if e.claimedTotal + q.amount > e.stakerAmount then Some(ClaimOverflow)
      else if l.tokens[StakerVault] < q.amount then Some(InsufficientFunds)
      else None
  }

  function BurnRefusal(l: Ledger, id: u64): Option<Error> {
    if id !in l.epochs || BurnVault !in l.tokens then Some(AccountMissing)
    else
      var e := l.epochs[id];
      if e.status == Open then Some(InvalidEpochStatus)
      else if e.burnExecuted then Some(BurnAlreadyExecuted)
      else if e.totalCollected < l.config.minBurn then Some(BurnBelowThreshold)
      else if l.tokens[BurnVault] < e.burnAmount then Some(InsufficientFunds)
      else None
  }

  /** What a sweep takes back: the unclaimed part, and the burn share unless it was burned. */
  function StakerResidual(e: Epoch): nat {
    SaturatingSub(e.stakerAmount, e.claimedTotal)
  }

  function BurnResidual(e: Epoch): nat {
    if e.burnExecuted then 0 else e.burnAmount
  }

  function SweepRefusal(l: Ledger, id: u64, now: i64): Option<Error> {
    if id !in l.epochs || id + 1 >= U64_LIMIT || id + 1 !in l.epochs || !VaultsExist(l.tokens) then Some(AccountMissing)
    else
      var e, back := l.epochs[id], StakerResidual(l.epochs[id]) + BurnResidual(l.epochs[id]);
      if e.status != Splitting && e.status != DistributionCommitted then Some(InvalidEpochStatus)
      else if e.swept then Some(AlreadySwept)
      else if !FitsI64(e.closedAt + l.config.claimWindow) then Some(ArithmeticOverflow)
      else if !FitsI64(e.closedAt + l.config.claimWindow + SWEEP_GRACE_SECS) then Some(ArithmeticOverflow)
      else if now < e.closedAt + l.config.claimWindow + SWEEP_GRACE_SECS then Some(SweepGraceNotElapsed)
      else if back >= U64_LIMIT then Some(ArithmeticOverflow)
      else if l.epochs[id + 1].totalCollected + back >= U64_LIMIT then Some(ArithmeticOverflow)
      else if l.tokens[StakerVault] < StakerResidual(e) then Some(InsufficientFunds)
      else if l.tokens[BurnVault] < BurnResidual(e) then Some(InsufficientFunds)
      else None
  }

  function SharesRefusal(l: Ledger, signer: Key, s: Shares): Option<Error> {
    if signer != l.config.metaAuthority then Some(Unauthorized)
    else if s.burn as int + s.staker + s.grant + s.treasury != Fees.BPS_DENOM then Some(InvalidBpsSum)
    else if s.burn > BURN_CAP_BPS || s.staker > STAKER_CAP_BPS then Some(BucketCapExceeded)
    else if s.grant > GRANT_CAP_BPS || s.treasury > TREASURY_CAP_BPS then Some(BucketCapExceeded)
    else None
  }

  function PauseRefusal(l: Ledger, signer: Key): Option<Error> {
    if signer != l.config.authority && signer != l.config.emergencyCouncil then Some(Unauthorized) else None
  }

  function PaymentRefusal(l: Ledger, from: Key, to: Place, amount: nat): Option<Error> {
    if Wallet(from) !in l.tokens || to !in l.tokens then Some(AccountMissing)
    else if l.tokens[Wallet(from)] < amount then Some(InsufficientFunds)
    else None
  }

  function Refusal(hash: HashFn, l: Ledger, ins: Instruction, now: i64): Option<Error> {
    match ins
    case Collects(amount) => CollectRefusal(l, amount)
    case Records(id, amount, registered) => RecordRefusal(l, id, amount, registered)
    case Process(id) => ProcessRefusal(l, id, now)
    case Commit(id, root, signer) => CommitRefusal(l, id, signer, now)
    case Claims(q) => ClaimRefusal(hash, l, q, now)
    case Burn(id) => BurnRefusal(l, id)
    case Sweep(id) => SweepRefusal(l, id, now)
    case SetShares(signer, shares) => SharesRefusal(l, signer, shares)
    case SetPaused(signer, _) => PauseRefusal(l, signer)
    case Pays(from, to, amount) => PaymentRefusal(l, from, to, amount)
  }

  // ----- effects

  function Credited(e: Epoch, amount: nat): Epoch
    requires e.totalCollected + amount < U64_LIMIT
  {
    e.(totalCollected := e.totalCollected + amount)
  }

  /** Harvested fees come from outside the accounts modelled here. */
  function CollectEffect(l: Ledger, amount: u64): Ledger
    requires CollectRefusal(l, amount).None?
  {
    l.(epochs := l.epochs[CurrentId(l) := Credited(l.epochs[CurrentId(l)], amount)],
       tokens := l.tokens[Intake := l.tokens[Intake] + amount])
  }

  function RecordEffect(l: Ledger, id: u64, amount: u64, registered: bool): Ledger
    requires RecordRefusal(l, id, amount, registered).None?
  {
    l.(epochs := l.epochs[id := Credited(l.epochs[id], amount)])
  }

  function ProcessEffect(l: Ledger, id: u64, now: i64): Ledger
    requires ProcessRefusal(l, id, now).None?
  {
    var e := l.epochs[id];
    var s := SplitOf(l.config, e.totalCollected);
    var split := e.(status := Splitting, closedAt := now, burnAmount := s.burn, stakerAmount := s.staker);
    l.(epochs := l.epochs[id := split][l.config.nextEpochId := FreshEpoch(now)],
       tokens := SendSplit(l.tokens, l.config, s).value,
       config := l.config.(nextEpochId := l.config.nextEpochId + 1))
  }

  function CommitEffect(l: Ledger, id: u64, root: bytes32): Ledger
    requires id in l.epochs
  {
    l.(epochs := l.epochs[id := l.epochs[id].(root := root, committed := true, status := DistributionCommitted)])
  }

  function ClaimEffect(hash: HashFn, l: Ledger, q: ClaimRequest, now: i64): Ledger
    requires ClaimRefusal(hash, l, q, now).None?
  {
    var e := l.epochs[q.id];
    var paid := e.(claimedTotal := e.claimedTotal + q.amount, claims := e.claims[q.staker := q.amount]);
    l.(epochs := l.epochs[q.id := paid],
       tokens := Move(l.tokens, StakerVault, q.destination, q.amount))
  }

  function BurnEffect(l: Ledger, id: u64): Ledger
    requires BurnRefusal(l, id).None?
  {
    var e := l.epochs[id];
    l.(epochs := l.epochs[id := e.(burnExecuted := true)],
       tokens := l.tokens[BurnVault := l.tokens[BurnVault] - e.burnAmount])
  }

  function SweepEffect(l: Ledger, id: u64, now: i64): Ledger
    requires SweepRefusal(l, id, now).None?
  {
    var e := l.epochs[id];
    var next := Credited(l.epochs[id + 1], StakerResidual(e) + BurnResidual(e));
    l.(epochs := l.epochs[id := e.(status := Stale, swept := true)][id + 1 := next],
       tokens := Move(Move(l.tokens, StakerVault, Intake, StakerResidual(e)), BurnVault, Intake, BurnResidual(e)))
  }

  function Effect(hash: HashFn, l: Ledger, ins: Instruction, now: i64): Ledger
    requires Refusal(hash, l, ins, now).None?
  {
    match ins
    case Collects(amount) => CollectEffect(l, amount)
    case Records(id, amount, registered) => RecordEffect(l, id, amount, registered)
    case Process(id) => ProcessEffect(l, id, now)
    case Commit(id, root, _) => CommitEffect(l, id, root)
    case Claims(q) => ClaimEffect(hash, l, q, now)
    case Burn(id) => BurnEffect(l, id)
    case Sweep(id) => SweepEffect(l, id, now)
    case SetShares(_, shares) => l.(config := l.config.(shares := shares))
    case SetPaused(_, paused) => l.(config := l.config.(paused := paused))
    case Pays(from, to, amount) => l.(tokens := Move(l.tokens, Wallet(from), to, amount))
  }

  function Step(hash: HashFn, l: Ledger, ins: Instruction, now: i64): Ledger {
    if Refusal(hash, l, ins, now).Some? then l else Effect(hash, l, ins, now)
  }
}
