/** What the staking program owes its users and its authority: exactly when a stake, an unstake, a
    close and a snapshot go through, on every run, in terms of what happened before. */
module StakingLiveness {
  import opened Wrappers
  import opened Bytes
  import opened Sums
  import opened StakingModel
  import opened StakingInvariants
  import opened StakingHistory

  lemma AtEnd(s: State, evs: seq<Event>)
    ensures At(s, evs, |evs|) == Run(s, evs)
  {
    assert evs[..|evs|] == evs;
  }

  // ----- getting in

  lemma MapsApart(stakes: map<Key, StakeAccount>, o: Key)
    requires o in stakes && stakes[o].status == Active
    ensures ActiveAmounts(stakes - {o}) == ActiveAmounts(stakes) - {o}
    ensures ActiveAmounts(stakes)[o] == stakes[o].amount
  {
  }

  lemma ActivePart(stakes: map<Key, StakeAccount>, o: Key)
    requires o in stakes && stakes[o].status != Active
    ensures ActiveAmounts(stakes - {o}) == ActiveAmounts(stakes)
  {
  }

  /** Covered vaults hold all active stake, beside whatever any wallet holds. */
  lemma {:induction false} StakeBesideWallet(stakes: map<Key, StakeAccount>, tokens: map<TokenAccount, nat>, w: Key)
    requires Wallet(w) in tokens
    requires forall o :: o in stakes ==> Vault(o) in tokens && tokens[Vault(o)] >= stakes[o].amount
    ensures Total(ActiveAmounts(stakes)) + tokens[Wallet(w)] <= Total(tokens)
    decreases |stakes|
  {
    if stakes == map[] {
      assert ActiveAmounts(stakes) == map[];
      TotalRemove(tokens, Wallet(w));
    } else {
      var o :| o in stakes;
      StakeBesideWallet(stakes - {o}, tokens - {Vault(o)}, w);
      TotalRemove(tokens, Vault(o));
      if stakes[o].status == Active {
        MapsApart(stakes, o);
        TotalRemove(ActiveAmounts(stakes), o);
      } else {
        ActivePart(stakes, o);
      }
    }
  }

  /** The owner has no accepted stake so far. */
  ghost predicate NeverStaked(s: State, evs: seq<Event>, o: Key) {
    forall i :: 0 <= i < |evs| && Accepted(s, evs, i) && evs[i].ins.Stake? ==> evs[i].ins.owner != o
  }

  lemma StakedHasAccount(s: State, evs: seq<Event>, i: nat)
    requires Accepted(s, evs, i) && evs[i].ins.Stake?
    ensures evs[i].ins.owner in Run(s, evs).stakes
  {
    AtEnd(s, evs);
    AtNext(s, evs, i);
    StakesOnlyAge(s, evs, i + 1, |evs|, evs[i].ins.owner);
  }

  lemma HasAccountIfStaked(s: State, evs: seq<Event>, o: Key)
    requires Genesis(s)
    ensures o in Run(s, evs).stakes <==> !NeverStaked(s, evs, o)
  {
    if o in Run(s, evs).stakes {
      AtEnd(s, evs);
      var i := StakeHasOrigin(s, evs, |evs|, o);
    } else {
      forall i | 0 <= i < |evs| && Accepted(s, evs, i) && evs[i].ins.Stake?
        ensures evs[i].ins.owner != o
      {
        StakedHasAccount(s, evs, i);
      }
    }
  }

  /** No instruction ever pauses the pool. */
  ghost predicate Unpaused(s: State) {
    s.pool.Some? ==> !s.pool.value.paused
  }

  lemma StepStaysUnpaused(s: State, ins: Instruction, now: int)
    requires Unpaused(s)
    ensures Unpaused(Step(s, ins, now))
  {
  }

  lemma {:induction false} RunUnpaused(s: State, evs: seq<Event>)
    requires Genesis(s)
    ensures Unpaused(Run(s, evs))
  {
    if |evs| > 0 {
      RunUnpaused(s, evs[..|evs| - 1]);
      StepStaysUnpaused(Run(s, evs[..|evs| - 1]), evs[|evs| - 1].ins, evs[|evs| - 1].now);
    }
  }

  /** The pool takes new stakes. */
  ghost predicate TakesStakes(s: State) {
    s.pool.Some? && !s.pool.value.closed && !s.pool.value.pauseNewStakes
  }

  /** On every run over a 64-bit supply: a stake is accepted exactly when it is the owner's first, the
      pool is open and not frozen, the wallet has the positive amount, and the lockup is between 7 and
      365 days and ends within 64 bits. The pause flag and the staked total never stand in the way. */
  lemma StakeAcceptedExactly(s: State, evs: seq<Event>, o: Key, source: Key, amount: nat, lockup: int, now: int)
    requires Genesis(s) && Timed(evs) && Total(s.tokens) < U64_LIMIT
    ensures
      var f := Run(s, evs);
      Refusal(f, Stake(o, source, amount, lockup), now).None? <==>
        && NeverStaked(s, evs, o) && TakesStakes(f)
        && Wallet(source) in f.tokens && 0 < amount <= f.tokens[Wallet(source)]
        && 7 * DAY <= lockup <= 365 * DAY && FitsI64(now + lockup)
  {
    var f := Run(s, evs);
    BooksBalance(s, evs);
    RunUnpaused(s, evs);
    HasAccountIfStaked(s, evs, o);
    if f.pool.Some? && Wallet(source) in f.tokens {
      StakeBesideWallet(f.stakes, f.tokens, source);
    }
  }

  // ----- getting out

  lemma UnstakeFromActive(s: State, o: Key, now: int)
    requires s.pool.Some? && o in s.stakes && s.stakes[o].status == Active
    ensures Refusal(s, BeginUnstake(o), now).None? <==>
      !s.pool.value.closed && now >= s.stakes[o].lockupEnd && FitsI64(now + COOLDOWN_SECS)
  {
  }

  /** On every run an active account can begin its unstake exactly from the end of the lockup that its
      stake agreed to, while the pool is not closed and the cooldown ends within 64 bits. */
  lemma UnstakeAcceptedExactly(s: State, evs: seq<Event>, o: Key, now: int) returns (i: nat)
    requires Genesis(s) && Timed(evs) && o in Run(s, evs).stakes && Run(s, evs).stakes[o].status == Active
    ensures Accepted(s, evs, i) && evs[i].ins.Stake? && evs[i].ins.owner == o
    ensures Refusal(Run(s, evs), BeginUnstake(o), now).None? <==>
      !Closed(Run(s, evs)) && now >= evs[i].now + evs[i].ins.lockup && FitsI64(now + 3 * DAY)
  {
    AtEnd(s, evs);
    BooksBalance(s, evs);
    i := StakeHasOrigin(s, evs, |evs|, o);
    UnstakeFromActive(Run(s, evs), o, now);
  }

  lemma RunAppend(s: State, evs: seq<Event>, e: Event)
    ensures Run(s, evs + [e]) == Step(Run(s, evs), e.ins, e.now)
    ensures At(s, evs + [e], |evs|) == Run(s, evs)
  {
    assert (evs + [e])[..|evs|] == evs;
  }

  lemma RunSplits(s: State, evs: seq<Event>, more: seq<Event>)
    ensures At(s, evs + more, |evs|) == Run(s, evs) && At(s, evs + more, |evs + more|) == Run(s, evs + more)
  {
    assert (evs + more)[..|evs|] == evs;
    AtEnd(s, evs + more);
  }

  /** From stake to payout. While the pool is not closed, the owner of an active account can begin the
      unstake at any time t from the end of the agreed lockup on; whatever happens afterwards, closing
      the pool included, the withdrawal of the staked amount to any token account is then accepted
      from three days after t until it is made. So the earliest payout is at lockup plus three days. */
  lemma StakePaysOut(s: State, evs: seq<Event>, o: Key, t: int, more: seq<Event>, destination: TokenAccount, now: int)
    returns (i: nat)
    requires Genesis(s) && Timed(evs + [Event(t, BeginUnstake(o))] + more)
    requires o in Run(s, evs).stakes && Run(s, evs).stakes[o].status == Active && !Closed(Run(s, evs))
    requires t + 3 * DAY <= now && FitsI64(now)
    requires destination in Run(s, evs + [Event(t, BeginUnstake(o))] + more).tokens
    ensures Accepted(s, evs, i) && evs[i].ins.Stake? && evs[i].ins.owner == o
    ensures t >= evs[i].now + evs[i].ins.lockup ==>
      var f := Run(s, evs + [Event(t, BeginUnstake(o))] + more);
      && o in f.stakes
      && (f.stakes[o].status == Withdrawn
          || (f.stakes[o].amount == evs[i].ins.amount && Refusal(f, Withdraw(o, destination), now).None?))
  {
    var begun := evs + [Event(t, BeginUnstake(o))];
    TimedPrefix(begun + more, |evs|);
    assert (begun + more)[..|evs|] == evs && (begun + more)[|evs|] == Event(t, BeginUnstake(o));
    i := UnstakeAcceptedExactly(s, evs, o, t);
    if t >= evs[i].now + evs[i].ins.lockup {
      RunAppend(s, evs, Event(t, BeginUnstake(o)));
      RunSplits(s, begun, more);
      AtEnd(s, evs);
      var c := Run(s, begun);
      assert c.stakes[o].status == Cooldown && c.stakes[o].cooldownStart == t;
      CooldownAlwaysPaysOut(s, begun + more, |begun|, |begun + more|, o, destination, now);
      StakesOnlyAge(s, begun + more, |begun|, |begun + more|, o);
      StakeTermsKept(s, evs, i, o);
    }
  }

  lemma StakeTermsKept(s: State, evs: seq<Event>, i: nat, o: Key)
    requires Accepted(s, evs, i) && evs[i].ins.Stake? && evs[i].ins.owner == o
    ensures o in Run(s, evs).stakes
    ensures Run(s, evs).stakes[o].status != Withdrawn ==> Run(s, evs).stakes[o].amount == evs[i].ins.amount
  {
    AtNext(s, evs, i);
    AtEnd(s, evs);
    StakesOnlyAge(s, evs, i + 1, |evs|, o);
  }

  /** Who is paid: an accepted withdrawal moves the amount of the owner's stake from the owner's vault to
      the account it names, and no other balance changes. */
  lemma WithdrawPaysExactly(s: State, evs: seq<Event>, j: nat, t: TokenAccount) returns (i: nat)
    requires Genesis(s) && Timed(evs) && Accepted(s, evs, j) && evs[j].ins.Withdraw? && t in At(s, evs, j).tokens
    ensures i < j && Accepted(s, evs, i) && evs[i].ins.Stake? && evs[i].ins.owner == evs[j].ins.owner
    ensures t in At(s, evs, j + 1).tokens
    ensures At(s, evs, j + 1).tokens[t] == At(s, evs, j).tokens[t]
      - (if t == Vault(evs[j].ins.owner) then evs[i].ins.amount else 0)
      + (if t == evs[j].ins.destination then evs[i].ins.amount else 0)
  {
    AtNext(s, evs, j);
    i := StakeHasOrigin(s, evs, j, evs[j].ins.owner);
  }

  /** And an accepted stake moves its amount from the named wallet into a new vault of the owner. */
  lemma StakePaysExactly(s: State, o: Key, source: Key, amount: nat, lockup: int, now: int, t: TokenAccount)
    requires Refusal(s, Stake(o, source, amount, lockup), now).None?
    ensures
      var f := Step(s, Stake(o, source, amount, lockup), now);
      && f.tokens.Keys == s.tokens.Keys + {Vault(o)} && Vault(o) !in s.tokens && f.tokens[Vault(o)] == amount
      && (t in s.tokens ==> f.tokens[t] == s.tokens[t] - if t == Wallet(source) then amount else 0)
  {
  }

  // ----- closing the pool

  ghost predicate NobodyActive(s: State) {
    forall o :: o in s.stakes ==> s.stakes[o].status != Active
  }

  lemma NothingStakedExactly(s: State)
    requires Inv(s) && s.pool.Some?
    ensures s.pool.value.totalStaked == 0 <==> NobodyActive(s)
  {
    if NobodyActive(s) {
      assert ActiveAmounts(s.stakes) == map[];
    } else {
      var o :| o in s.stakes && s.stakes[o].status == Active;
      assert AccountShape(s.stakes[o]);
      assert ActiveAmounts(s.stakes)[o] == s.stakes[o].amount;
      TotalRemove(ActiveAmounts(s.stakes), o);
    }
  }

  /** On every run without a freeze in force the authority can close the pool exactly when nobody's
      stake is active. */
  lemma CloseUnfrozenExactly(s: State, evs: seq<Event>, signer: Key, now: int)
    requires Genesis(s) && Timed(evs) && !Frozen(Run(s, evs))
    ensures
      var f := Run(s, evs);
      Refusal(f, ClosePool(signer), now).None? <==>
        f.pool.Some? && f.pool.value.authority == signer && !Closed(f) && NobodyActive(f)
  {
    BooksBalance(s, evs);
    if Run(s, evs).pool.Some? {
      NothingStakedExactly(Run(s, evs));
    }
  }

  lemma CloseFrozen(s: State, signer: Key, now: int)
    requires Frozen(s) && (s.pool.value.totalStaked == 0 <==> NobodyActive(s))
    ensures
      var opens := s.pool.value.pauseNewStakesAt + 180 * DAY;
      Refusal(s, ClosePool(signer), now).None? <==>
        s.pool.value.authority == signer && !Closed(s) && FitsI64(opens) && (NobodyActive(s) || now >= opens)
  {
  }

  /** Under a freeze it can close it at once when nobody's stake is active, and 180 days after the
      freeze in any case, as long as that day is within 64 bits. */
  lemma CloseFrozenExactly(s: State, evs: seq<Event>, signer: Key, now: int) returns (i: nat)
    requires Genesis(s) && Timed(evs) && Frozen(Run(s, evs))
    ensures FrozenSince(s, evs, i, |evs|)
    ensures
      var f, opens := Run(s, evs), evs[i].now + 180 * DAY;
      Refusal(f, ClosePool(signer), now).None? <==>
        f.pool.value.authority == signer && !Closed(f) && FitsI64(opens) && (NobodyActive(f) || now >= opens)
  {
    AtEnd(s, evs);
    BooksBalance(s, evs);
    i := FreezeInForce(s, evs, |evs|);
    NothingStakedExactly(Run(s, evs));
    CloseFrozen(Run(s, evs), signer, now);
  }

  lemma StepToClosed(s: State, ins: Instruction, now: int)
    requires Closed(Step(s, ins, now))
    ensures
      var f := Step(s, ins, now);
      if Closed(s) then f.pool.value.closedAt == s.pool.value.closedAt
      else Refusal(s, ins, now).None? && ins.ClosePool? && f.pool.value.closedAt == now
  {
  }

  /** A closed pool says when it was closed. */
  lemma {:induction false} CloseHasOrigin(s: State, evs: seq<Event>) returns (i: nat)
    requires Genesis(s) && Closed(Run(s, evs))
    ensures Accepted(s, evs, i) && evs[i].ins.ClosePool? && Run(s, evs).pool.value.closedAt == evs[i].now
  {
    var n := |evs| - 1;
    StepToClosed(At(s, evs, n), evs[n].ins, evs[n].now);
    if Closed(At(s, evs, n)) {
      i := CloseHasOrigin(s, evs[..n]);
      AcceptedInPrefix(s, evs, n);
    } else {
      i := n;
    }
  }

  // ----- snapshots

  /** The accepted event that opened the pool or took the latest snapshot: it began the epoch. */
  ghost predicate BeganEpoch(s: State, evs: seq<Event>, i: nat) {
    && Accepted(s, evs, i) && (evs[i].ins.InitPool? || evs[i].ins.SnapshotEpoch?)
    && forall k :: i < k < |evs| && Accepted(s, evs, k) ==> !evs[k].ins.InitPool? && !evs[k].ins.SnapshotEpoch?
  }

  lemma StepKeepsEpoch(s: State, ins: Instruction, now: int)
    requires Step(s, ins, now).pool.Some?
    ensures
      var f := Step(s, ins, now);
      if Refusal(s, ins, now).None? && (ins.InitPool? || ins.SnapshotEpoch?) then f.pool.value.epochStart == now
      else s.pool.Some? && f.pool.value.epochStart == s.pool.value.epochStart
  {
  }

  lemma {:induction false} EpochHasOrigin(s: State, evs: seq<Event>) returns (i: nat)
    requires Genesis(s) && Run(s, evs).pool.Some?
    ensures BeganEpoch(s, evs, i) && Run(s, evs).pool.value.epochStart == evs[i].now
  {
    var n := |evs| - 1;
    AtEnd(s, evs);
    AtNext(s, evs, n);
    StepKeepsEpoch(At(s, evs, n), evs[n].ins, evs[n].now);
    if Accepted(s, evs, n) && (evs[n].ins.InitPool? || evs[n].ins.SnapshotEpoch?) {
      i := n;
    } else {
      i := EpochHasOrigin(s, evs[..n]);
      AcceptedInPrefix(s, evs, n);
    }
  }

  lemma AcceptedInPrefix(s: State, evs: seq<Event>, n: nat)
    requires n <= |evs|
    ensures forall k :: 0 <= k < n ==> (Accepted(s, evs[..n], k) <==> Accepted(s, evs, k))
  {
    forall k | 0 <= k < n
      ensures Accepted(s, evs[..n], k) <==> Accepted(s, evs, k)
    {
      assert evs[..n][..k] == evs[..k];
    }
  }

  /** On every run the authority can take the next snapshot exactly when the pool is open and an epoch
      duration has passed since the pool began or the latest snapshot was taken, short of overflow. */
  lemma SnapshotAcceptedExactly(s: State, evs: seq<Event>, signer: Key, power: nat, count: nat, now: int)
    returns (i: nat)
    requires Genesis(s) && Timed(evs) && Run(s, evs).pool.Some?
    ensures BeganEpoch(s, evs, i)
    ensures
      var f := Run(s, evs);
      var ends := evs[i].now + f.pool.value.epochDuration;
      Refusal(f, SnapshotEpoch(signer, power, count), now).None? <==>
        && f.config == Some(signer) && !Closed(f) && now >= ends
        && FitsI64(ends) && f.pool.value.currentEpoch + 1 < U64_LIMIT
  {
    BooksBalance(s, evs);
    i := EpochHasOrigin(s, evs);
    SnapshotNeverCollides(Run(s, evs), signer, power, count, now);
    OneConfig(s, evs);
  }

  lemma OneConfig(s: State, evs: seq<Event>)
    requires Genesis(s)
    ensures OneAuthority(Run(s, evs))
  {
    AtEnd(s, evs);
    var i := AuthorityHasOrigin(s, evs, |evs|);
  }

  /** Every recorded snapshot is what one accepted request said: its voting power, its staker count and
      the time it came. */
  lemma {:induction false} SnapshotHasOrigin(s: State, evs: seq<Event>, e: nat) returns (i: nat)
    requires Genesis(s) && e in Run(s, evs).snapshots
    ensures Accepted(s, evs, i) && evs[i].ins.SnapshotEpoch? && At(s, evs, i).pool.value.currentEpoch == e
    ensures Run(s, evs).snapshots[e] ==
      Snapshot(e, evs[i].ins.totalVotingPower, evs[i].now, evs[i].ins.stakerCount)
  {
    var n := |evs| - 1;
    AtEnd(s, evs);
    AtNext(s, evs, n);
    var b := At(s, evs, n);
    StepRecords(b, evs[n].ins, evs[n].now, e);
    if e in b.snapshots {
      i := SnapshotHasOrigin(s, evs[..n], e);
      AcceptedInPrefix(s, evs, n);
      assert evs[..n][..i] == evs[..i];
    } else {
      i := n;
    }
  }

  lemma StepRecords(s: State, ins: Instruction, now: int, e: nat)
    requires e in Step(s, ins, now).snapshots
    ensures
      var f := Step(s, ins, now);
      if e in s.snapshots then f.snapshots[e] == s.snapshots[e]
      else
        && Refusal(s, ins, now).None? && ins.SnapshotEpoch? && s.pool.value.currentEpoch == e
        && f.snapshots[e] == Snapshot(e, ins.totalVotingPower, now, ins.stakerCount)
  {
  }

  // ----- administration

  /** The accepted event that set the list of callers in force. */
  ghost predicate SetCallers(s: State, evs: seq<Event>, i: nat) {
    && Accepted(s, evs, i) && CallersGiven(evs[i].ins).Some?
    && forall k :: i < k < |evs| && Accepted(s, evs, k) ==> CallersGiven(evs[k].ins).None?
  }

  function CallersGiven(ins: Instruction): Option<seq<Key>> {
    match ins
    case InitGuard(_, initial) => Some(initial)
    case SetAllowedCallers(_, programs) => Some(programs)
    case _ => None
  }

  lemma StepSetsCallers(s: State, ins: Instruction, now: int)
    ensures Step(s, ins, now).callers ==
      if Refusal(s, ins, now).None? && CallersGiven(ins).Some? then CallersGiven(ins) else s.callers
  {
  }

  /** On every run the callers allowed are those of the latest accepted list. */
  lemma {:induction false} CallersInForce(s: State, evs: seq<Event>) returns (i: nat)
    requires Genesis(s) && Run(s, evs).callers.Some?
    ensures SetCallers(s, evs, i) && Run(s, evs).callers == CallersGiven(evs[i].ins)
  {
    var n := |evs| - 1;
    AtEnd(s, evs);
    AtNext(s, evs, n);
    StepSetsCallers(At(s, evs, n), evs[n].ins, evs[n].now);
    if Accepted(s, evs, n) && CallersGiven(evs[n].ins).Some? {
      i := n;
    } else {
      i := CallersInForce(s, evs[..n]);
      StillInForce(s, evs, n, i);
    }
  }

  lemma StillInForce(s: State, evs: seq<Event>, n: nat, i: nat)
    requires n == |evs| - 1 && SetCallers(s, evs[..n], i)
    requires Accepted(s, evs, n) ==> CallersGiven(evs[n].ins).None?
    ensures SetCallers(s, evs, i) && CallersGiven(evs[..n][i].ins) == CallersGiven(evs[i].ins)
  {
    AcceptedInPrefix(s, evs, n);
    forall k | i < k < |evs| && Accepted(s, evs, k)
      ensures CallersGiven(evs[k].ins).None?
    {
      if k < n {
        assert Accepted(s, evs[..n], k) && evs[..n][k] == evs[k];
      }
    }
  }

  lemma StepKeepsPoolTerms(s: State, ins: Instruction, now: int)
    requires Step(s, ins, now).pool.Some?
    ensures
      var f := Step(s, ins, now).pool.value;
      if s.pool.Some? then
        && f.authority == s.pool.value.authority && f.rewardRate == s.pool.value.rewardRate
        && f.epochDuration == s.pool.value.epochDuration
      else
        && Refusal(s, ins, now).None? && ins.InitPool? && f.authority == ins.signer
        && f.rewardRate == ins.rewardRate && f.epochDuration == ins.epochDuration
  {
  }

  /** On every run the pool has the terms that one accepted initialisation gave it. */
  lemma {:induction false} PoolHasOrigin(s: State, evs: seq<Event>) returns (i: nat)
    requires Genesis(s) && Run(s, evs).pool.Some?
    ensures Accepted(s, evs, i) && evs[i].ins.InitPool?
    ensures
      var p := Run(s, evs).pool.value;
      && p.authority == evs[i].ins.signer && p.rewardRate == evs[i].ins.rewardRate
      && p.epochDuration == evs[i].ins.epochDuration
  {
    var n := |evs| - 1;
    AtEnd(s, evs);
    AtNext(s, evs, n);
    StepKeepsPoolTerms(At(s, evs, n), evs[n].ins, evs[n].now);
    if At(s, evs, n).pool.Some? {
      i := PoolHasOrigin(s, evs[..n]);
      AcceptedInPrefix(s, evs, n);
    } else {
      i := n;
    }
  }

  /** The authority can set up the program in order and change its settings at any time, a closed pool's
      too: each instruction goes through exactly for the named signer when what it creates is missing
      and what it changes is there. The callers are at most eight, none of them the default key. */
  lemma AdminAcceptedExactly(s: State, evs: seq<Event>, signer: Key, programs: seq<Key>, d: int, rate: nat, now: int)
    requires Genesis(s) && Timed(evs)
    ensures
      var f, few := Run(s, evs), |programs| <= 8 && DefaultKey() !in programs;
      && (Refusal(f, Initialize(signer), now).None? <==> f.config.None?)
      && (Refusal(f, InitGuard(signer, programs), now).None? <==> f.config == Some(signer) && f.guard.None? && few)
      && (Refusal(f, SetAllowedCallers(signer, programs), now).None? <==>
            f.config == Some(signer) && f.guard.Some? && few)
      && (Refusal(f, ProposeGuardReset(signer), now).None? <==> f.config == Some(signer) && f.guard.Some?)
      && (Refusal(f, InitPool(signer, d, rate), now).None? <==> f.config == Some(signer) && f.pool.None?)
      && (Refusal(f, FreezeDeposits(signer), now).None? <==>
            f.config == Some(signer) && f.pool.Some? && !Frozen(f))
      && (Refusal(f, UnfreezeDeposits(signer), now).None? <==> f.config == Some(signer) && Frozen(f))
  {
    BooksBalance(s, evs);
    OneConfig(s, evs);
  }

  // ----- guard resets

  /** On every run with a proposal in force the authority can reset the guard exactly from 24 hours
      after the latest proposal on. */
  lemma ResetAcceptedExactly(s: State, evs: seq<Event>, signer: Key, now: i64) returns (i: nat)
    requires Genesis(s) && Timed(evs) && Proposed(Run(s, evs))
    ensures LatestProposal(s, evs, i, |evs|)
    ensures Refusal(Run(s, evs), AdminResetGuard(signer), now).None? <==>
      Run(s, evs).config == Some(signer) && now >= evs[i].now + DAY
  {
    AtEnd(s, evs);
    i := ProposalInForce(s, evs, |evs|);
  }
}
