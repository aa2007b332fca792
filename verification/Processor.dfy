/**
 The instructions of programs/albus-stake-pool/src/processor.rs over a pool, its
 validator list, the accounts and the pool token.

 An instruction works on copies and writes them back at its end: one that fails
 leaves everything as it was.
 */
module Processor {
  import opened Wrappers
  import opened StakeState
  import opened StakeProgram
  import opened ValidatorLists
  import BigVectors
  import opened Books
  import SharePrice
  import FeeGrowth
  import EpochUpdate

  const MINIMUM_ACTIVE_STAKE: U64 := 1_000_000
  const MINIMUM_RESERVE_LAMPORTS: U64 := 0

  function MinimumDelegation(stakeProgramMinimum: U64): U64 {
    if stakeProgramMinimum < MINIMUM_ACTIVE_STAKE then MINIMUM_ACTIVE_STAKE else stakeProgramMinimum
  }

  predicate Deactivating(a: StakeAccount, epoch: U64) {
    a.kind.Delegated? && a.kind.deactivation == epoch
  }

  predicate Activating(a: StakeAccount, epoch: U64) {
    a.kind.Delegated? && a.kind.deactivation == EPOCH_MAX && a.kind.activation == epoch
  }

  /** Stake delegated in an epoch is activating in that epoch only, and stopped stake deactivating in its epoch only. */
  lemma StakeEpochs(l: Ledger, a: Address, vote: nat, epoch: U64, other: U64)
    ensures Delegate(l, a, vote, epoch).Some? ==>
      var after := At(Delegate(l, a, vote, epoch).value, a);
      (Activating(after, other) <==> other == epoch) && (Deactivating(after, other) <==> other == EPOCH_MAX)
    ensures Deactivate(l, a, epoch).Some? ==>
      var after := At(Deactivate(l, a, epoch).value, a);
      (Deactivating(after, other) <==> other == epoch) && (Activating(after, other) ==> epoch == EPOCH_MAX)
  {
  }

  /** The ephemeral account an instruction goes through, if it names one. */
  function Named(ephemeralSeed: Option<U64>): set<Address> {
    if ephemeralSeed.Some? then {Ephemeral(ephemeralSeed.value)} else {}
  }

  /** Lamports from the reserve into an ephemeral account, delegated in this epoch. */
  method FundEphemeral(accounts: Ledger, vote: nat, clock: U64, total: U64, between: Address)
    returns (r: Option<Ledger>)
    requires between.Ephemeral?
    ensures r.Some? <==>
      && !At(accounts, Reserve).kind.Uninitialized? && total <= Balance(accounts, Reserve)
      && Creatable(accounts, between) && Balance(accounts, between) + total <= U64_MAX
    ensures r.Some? ==>
      && Moved(accounts, r.value, Reserve, between, total) && SameExcept(accounts, r.value, {Reserve, between})
      && At(r.value, between) ==
           StakeAccount(Balance(accounts, between) + total, At(accounts, Reserve).usable,
                        Delegated(vote, clock, EPOCH_MAX))
    ensures r.Some? && total < Balance(accounts, Reserve) ==> StateKept(accounts, r.value, Reserve)
  {
    hide Split, Delegate, At;
    if !Creatable(accounts, between) { return None; }
    var split := Split(accounts, Reserve, between, total);
    if split.None? { return None; }
    r := Delegate(split.value, between, vote, clock);
  }

  /** When the programs carry lamports from the reserve into the transient account. */
  predicate Fundable(l: Ledger, vote: nat, total: U64, transientSeed: U64, ephemeralSeed: Option<U64>, inUse: bool) {
    var target := Transient(vote, transientSeed);
    var between := if ephemeralSeed.Some? then Balance(l, Ephemeral(ephemeralSeed.value)) else 0;
    && !At(l, Reserve).kind.Uninitialized? && total <= Balance(l, Reserve)
    && (ephemeralSeed.Some? ==> Creatable(l, Ephemeral(ephemeralSeed.value)) && between + total <= U64_MAX)
    && (inUse <==> !Creatable(l, target))
    && Balance(l, target) + total + (if inUse then between else 0) <= U64_MAX
  }

  /**
   Lamports from the reserve, through an ephemeral account if one is named, into a
   transient stake account that activates in this epoch.
   */
  method FundTransient(accounts: Ledger, vote: nat, clock: U64, total: U64, transientSeed: U64,
                       ephemeralSeed: Option<U64>, inUse: bool)
    returns (r: Option<Ledger>)
    requires inUse ==> ephemeralSeed.Some?
    ensures r.Some? <==> Fundable(accounts, vote, total, transientSeed, ephemeralSeed, inUse)
    ensures r.Some? && (ephemeralSeed.Some? ==> Balance(accounts, Ephemeral(ephemeralSeed.value)) == 0) ==>
      Moved(accounts, r.value, Reserve, Transient(vote, transientSeed), total)
    ensures r.Some? && inUse ==> StateKept(accounts, r.value, Transient(vote, transientSeed))
    ensures r.Some? && !inUse && At(accounts, Reserve).kind.Initialized? ==>
      var target := At(r.value, Transient(vote, transientSeed));
      target.kind == Delegated(vote, clock, EPOCH_MAX) && target.usable == At(accounts, Reserve).usable
    ensures r.Some? ==>
      SameExcept(accounts, r.value, {Reserve, Transient(vote, transientSeed)} + Named(ephemeralSeed))
    ensures r.Some? && total < Balance(accounts, Reserve) ==> StateKept(accounts, r.value, Reserve)
  {
    hide Split, Merge, Delegate, Pay, At;
    var target := Transient(vote, transientSeed);
    var l := accounts;
    var source := Reserve;
    if ephemeralSeed.Some? {
      source := Ephemeral(ephemeralSeed.value);
      var funded := FundEphemeral(l, vote, clock, total, source);
      if funded.None? { return None; }
      l := funded.value;
    }
    if inUse {
      r := Merge(l, source, target);
    } else {
      if !Creatable(l, target) { return None; }
      r := Split(l, source, target, total);
      if r.None? { return None; }
      var kind := At(r.value, target).kind;
      if !(kind.Delegated? && kind.activation <= clock) {
        r := Delegate(r.value, target, vote, clock);
      }
    }
  }

  /** When the reserve has what it is asked for. */
  predicate CanTopUp(l: Ledger, target: Address, rent: U64, fund: bool, strict: bool) {
    var required := SaturatingSub(rent, Balance(l, target));
    fund && (required > 0 || strict) ==>
      required < Balance(l, Reserve) && (required > 0 ==> !At(l, Reserve).kind.Uninitialized?)
  }

  /** The balance of an account after it was topped up. */
  function ToppedUp(l: Ledger, target: Address, rent: U64, fund: bool): U64 {
    if fund && Balance(l, target) < rent then rent else Balance(l, target)
  }

  /**
   The reserve tops an account up to the rent, if it is asked to and something is
   missing. With `strict` the reserve must hold more than what is missing even when
   that is nothing.
   */
  method TopUp(accounts: Ledger, target: Address, rent: U64, fund: bool, strict: bool)
    returns (r: Result<Ledger, StakePoolError>)
    requires target != Reserve
    ensures r.Ok? <==> CanTopUp(accounts, target, rent, fund, strict)
    ensures var required := SaturatingSub(rent, Balance(accounts, target));
      r == Err(ReserveDepleted) <==> fund && (required > 0 || strict) && required >= Balance(accounts, Reserve)
    ensures r.Ok? ==> var missing := if fund then SaturatingSub(rent, Balance(accounts, target)) else 0;
      && Balance(r.value, Reserve) as int == Balance(accounts, Reserve) - missing
      && Balance(r.value, target) == ToppedUp(accounts, target, rent, fund)
      && Moved(accounts, r.value, Reserve, target, missing) && SameExcept(accounts, r.value, {Reserve, target})
      && StateKept(accounts, r.value, target) && StateKept(accounts, r.value, Reserve)
  {
    hide Withdraw, Pay;
    if !fund { return Ok(accounts); }
    var required := SaturatingSub(rent, Balance(accounts, target));
    if (required > 0 || strict) && required >= Balance(accounts, Reserve) { return Err(ReserveDepleted); }
    if required == 0 { return Ok(accounts); }
    var funded := Withdraw(accounts, Reserve, target, required);
    r := if funded.None? then Err(StakeProgramRefused) else Ok(funded.value);
  }

  /** The target has what the source was delegated to, deactivated if it was not; the reserve only paid. */
  ghost predicate Retired(l: Ledger, m: Ledger, source: Address, target: Address, clock: U64) {
    var kind := At(l, source).kind;
    && At(m, target).kind == (if kind.Delegated? then Stopped(kind, clock) else kind)
    && At(m, target).usable == At(l, source).usable
    && StateKept(l, m, Reserve) && SameExcept(l, m, {Reserve, source, target})
  }

  /** Deactivated in this epoch, if not before. */
  function Stopped(kind: Kind, clock: U64): Kind
    requires kind.Delegated?
  {
    kind.(deactivation := if kind.deactivation == EPOCH_MAX then clock else kind.deactivation)
  }

  predicate CanSplitOff(l: Ledger, source: Address, target: Address, lamports: U64, fund: bool, rent: U64) {
    && Creatable(l, target) && CanTopUp(l, target, rent, fund, false)
    && At(l, source).kind.Delegated? && At(l, source).kind.deactivation == EPOCH_MAX
    && lamports <= Balance(l, source) && ToppedUp(l, target, rent, fund) + lamports <= U64_MAX
  }

  /** Stake split off into a funded ephemeral account and deactivated there. */
  method SplitOff(accounts: Ledger, source: Address, target: Address, clock: U64, lamports: U64, fund: bool, rent: U64)
    returns (r: Result<Ledger, StakePoolError>)
    requires source.Validator? && target.Ephemeral?
    ensures r.Ok? ==>
      Released(accounts, r.value, source, target, lamports,
               if fund then SaturatingSub(rent, Balance(accounts, target)) else 0)
    ensures r.Ok? <==> CanSplitOff(accounts, source, target, lamports, fund, rent)
    ensures r.Ok? ==> Balance(r.value, target) == ToppedUp(accounts, target, rent, fund) + lamports
    ensures r.Ok? ==> Retired(accounts, r.value, source, target, clock)
    ensures r.Ok? && lamports < Balance(accounts, source) ==> StateKept(accounts, r.value, source)
  {
    hide Split, Deactivate, Pay;
    if !Creatable(accounts, target) { return Err(StakeProgramRefused); }
    var funded := TopUp(accounts, target, rent, fund, false);
    if funded.Err? { return funded; }
    var split := Split(funded.value, source, target, lamports);
    if split.None? { return Err(StakeProgramRefused); }
    var deactivated := Deactivate(split.value, target, clock);
    r := if deactivated.None? then Err(StakeProgramRefused) else Ok(deactivated.value);
  }

  predicate CanSplitTransient(l: Ledger, source: Address, target: Address, lamports: U64, fund: bool, rent: U64) {
    var funds := fund && Balance(l, source) != lamports;
    && Creatable(l, target) && CanTopUp(l, target, rent, funds, true)
    && !At(l, source).kind.Uninitialized?
    && lamports <= Balance(l, source) && ToppedUp(l, target, rent, funds) + lamports <= U64_MAX
  }

  /** Stake split into a new transient account, which deactivates if it did not already. */
  method SplitTransient(accounts: Ledger, source: Address, target: Address, clock: U64, lamports: U64, fund: bool,
                        rent: U64)
    returns (r: Result<Ledger, StakePoolError>)
    requires (source.Validator? || source.Ephemeral?) && target.Transient?
    ensures r.Ok? <==> CanSplitTransient(accounts, source, target, lamports, fund, rent)
    ensures r.Ok? ==>
      var paid := if fund && lamports != Balance(accounts, source) then SaturatingSub(rent, Balance(accounts, target))
                  else 0;
      Released(accounts, r.value, source, target, lamports, paid)
    ensures r.Ok? ==> Retired(accounts, r.value, source, target, clock)
    ensures r.Ok? && lamports < Balance(accounts, source) ==> StateKept(accounts, r.value, source)
  {
    hide Split, Pay, Moved, Released, BalancesExcept;
    if !Creatable(accounts, target) { return Err(StakeProgramRefused); }
    var funded := TopUp(accounts, target, rent, fund && Balance(accounts, source) != lamports, true);
    if funded.Err? { return funded; }
    var split := Split(funded.value, source, target, lamports);
    if split.None? { return Err(StakeProgramRefused); }
    var l := StopDelegation(split.value, target, clock);
    r := Ok(l);
    SplitAmounts(accounts, funded.value, split.value, l, source, target, lamports);
  }

  /** The reserve pays first, then the source. */
  lemma SplitAmounts(l: Ledger, m: Ledger, n: Ledger, o: Ledger, source: Address, target: Address, lamports: U64)
    requires source != Reserve && target != Reserve
    requires Moved(l, m, Reserve, target, Balance(l, Reserve) - Balance(m, Reserve))
    requires Moved(m, n, source, target, lamports) && BalancesExcept(n, o, {})
    ensures Released(l, o, source, target, lamports, Balance(l, Reserve) - Balance(m, Reserve))
  {
  }

  /** A delegation that has not stopped stops. */
  method StopDelegation(accounts: Ledger, a: Address, clock: U64) returns (l: Ledger)
    ensures var before := At(accounts, a);
      At(l, a) == before.(kind := if before.kind.Delegated? then Stopped(before.kind, clock) else before.kind)
    ensures BalancesExcept(accounts, l, {}) && SameExcept(accounts, l, {a})
  {
    l := accounts;
    if At(l, a).kind.Delegated? && At(l, a).kind.deactivation == EPOCH_MAX {
      l := Deactivate(l, a, clock).value;
    }
  }

  /**
   The transient account has the delegation of the source, stopped in this epoch at the
   latest, unless it was in use; nothing but lamports changed in the source and the reserve.
   */
  ghost predicate ReleasedFrom(l: Ledger, m: Ledger, source: Address, target: Address, ephemeralSeed: Option<U64>,
                               clock: U64, inUse: bool)
  {
    var kind := At(l, source).kind;
    && (if inUse then StateKept(l, m, target)
        else kind.Delegated? ==>
          At(m, target).kind == Stopped(kind, clock) && At(m, target).usable == At(l, source).usable)
    && StateKept(l, m, source) && StateKept(l, m, Reserve)
    && SameExcept(l, m, {Reserve, source, target} + Named(ephemeralSeed))
  }

  predicate CanRelease(l: Ledger, source: Address, vote: nat, lamports: U64, transientSeed: U64,
                       ephemeralSeed: Option<U64>, fund: bool, rent: U64, inUse: bool)
  {
    var target := Transient(vote, transientSeed);
    if ephemeralSeed.None? then CanSplitTransient(l, source, target, lamports, fund, rent)
    else
      var between := Ephemeral(ephemeralSeed.value);
      && CanSplitOff(l, source, between, lamports, fund, rent)
      && (inUse <==> !Creatable(l, target))
      && Balance(l, target) + ToppedUp(l, between, rent, fund) + lamports <= U64_MAX
  }

  /**
   Lamports from a validator account, through an ephemeral account if one is named,
   into a transient stake account that deactivates. With `fund` the reserve pays
   the rent of the account created first.
   */
  method ReleaseStake(accounts: Ledger, source: Address, vote: nat, clock: U64, lamports: U64, transientSeed: U64,
                      ephemeralSeed: Option<U64>, fund: bool, rent: U64, inUse: bool)
    returns (r: Result<Ledger, StakePoolError>)
    requires inUse ==> ephemeralSeed.Some?
    requires source.Validator? && lamports < Balance(accounts, source)
    ensures r.Ok? <==>
      CanRelease(accounts, source, vote, lamports, transientSeed, ephemeralSeed, fund, rent, inUse)
    ensures var target := Transient(vote, transientSeed);
      var paid := if fund then rent else 0;
      r.Ok? && (ephemeralSeed.Some? ==> Balance(accounts, Ephemeral(ephemeralSeed.value)) == 0)
      && (!inUse ==> Balance(accounts, target) == 0) ==>
        Released(accounts, r.value, source, target, lamports, paid)
    ensures r.Ok? ==>
      ReleasedFrom(accounts, r.value, source, Transient(vote, transientSeed), ephemeralSeed, clock, inUse)
  {
    hide Merge, Pay;
    var target := Transient(vote, transientSeed);
    if ephemeralSeed.None? {
      r := SplitTransient(accounts, source, target, clock, lamports, fund, rent);
      return;
    }
    var between := Ephemeral(ephemeralSeed.value);
    r := SplitOff(accounts, source, between, clock, lamports, fund, rent);
    if r.Err? { return; }
    if inUse {
      var merged := Merge(r.value, between, target);
      r := if merged.None? then Err(StakeProgramRefused) else Ok(merged.value);
    } else {
      r := SplitTransient(r.value, between, target, clock, Balance(r.value, between), fund, rent);
    }
  }

  /** Nothing changed but that the accounts of a record deactivate: the transient one if it holds usable stake. */
  ghost predicate RetiredBoth(l: Ledger, m: Ledger, record: ValidatorStakeInfo, clock: U64)
    requires At(l, record.ValidatorAddress()).kind.Delegated?
  {
    var stake, pending := At(l, record.ValidatorAddress()), At(l, record.TransientAddress());
    && At(m, record.ValidatorAddress()) == stake.(kind := Stopped(stake.kind, clock))
    && At(m, record.TransientAddress()) ==
         (if record.transient > 0 && pending.kind.Delegated? && pending.usable
          then pending.(kind := Stopped(pending.kind, clock)) else pending)
    && SameExcept(l, m, {record.ValidatorAddress(), record.TransientAddress()})
  }

  /** Both accounts of a removed validator start to deactivate, and the status it is left in. */
  method RetireStake(accounts: Ledger, record: ValidatorStakeInfo, clock: U64) returns (l: Ledger, status: StakeStatus)
    requires DelegatedTo(At(accounts, record.ValidatorAddress()), record.vote)
    ensures BalancesExcept(accounts, l, {}) && RetiredBoth(accounts, l, record, clock)
    ensures var pending := At(accounts, record.TransientAddress());
      status == if record.transient > 0 && pending.kind.Delegated? && pending.usable then DeactivatingAll
        else DeactivatingValidator
  {
    l, status := accounts, DeactivatingValidator;
    var stake := record.ValidatorAddress();
    var pending := At(l, record.TransientAddress());
    if record.transient > 0 && pending.kind.Delegated? && pending.usable {
      if pending.kind.deactivation == EPOCH_MAX {
        l := Deactivate(l, record.TransientAddress(), clock).value;
      }
      status := DeactivatingAll;
    }
    if At(l, stake).kind.deactivation == EPOCH_MAX {
      l := Deactivate(l, stake, clock).value;
    }
  }

  /** What each account holds after the sending half of a redelegation. */
  ghost predicate SentAmounts(l: Ledger, m: Ledger, source: Address, target: Address, between: Address, lamports: U64,
                              rent: U64)
  {
    && BalancesExcept(l, m, {Reserve, source, target, between})
    && Balance(m, Reserve) as int == Balance(l, Reserve) - rent
    && Balance(m, source) as int == Balance(l, source) - lamports
    && Balance(m, target) == rent && Balance(m, between) == lamports
  }

  lemma SentExactly(l: Ledger, m: Ledger, source: Address, target: Address, between: Address, lamports: U64, rent: U64)
    ensures SentAmounts(l, m, source, target, between, lamports, rent) ==> Balance(m, between) == lamports
  {
  }

  /** The source's delegation stops in the transient account, and starts anew in the ephemeral one. */
  ghost predicate Sent(l: Ledger, m: Ledger, source: Address, target: Address, between: Address, voteTo: nat,
                       clock: U64)
  {
    && At(l, source).kind.Delegated?
    && At(m, target).kind == At(l, source).kind.(deactivation := clock)
    && At(m, between).kind == Delegated(voteTo, clock, EPOCH_MAX)
    && At(m, target).usable == At(m, between).usable == At(l, source).usable
    && SameExcept(l, m, {Reserve, source, target, between}) && StateKept(l, m, Reserve)
  }

  /** The stake that comes is delegated in this epoch to the validator of the account it goes to. */
  ghost predicate Received(l: Ledger, m: Ledger, between: Address, target: Address, clock: U64)
    requires target.Transient?
  {
    && SameExcept(l, m, {between, target})
    && (At(l, between).kind == Delegated(target.vote, clock, EPOCH_MAX) ==>
          At(m, target).kind == Delegated(target.vote, clock, EPOCH_MAX))
  }

  /** The states of the accounts after a redelegation, which deactivates at one validator and activates at the other. */
  ghost predicate Redelegated(l: Ledger, m: Ledger, source: Address, from: Address, to: Address, between: Address,
                              clock: U64)
    requires to.Transient?
  {
    && At(l, source).kind.Delegated?
    && At(m, from).kind == At(l, source).kind.(deactivation := clock)
    && At(m, to).kind == Delegated(to.vote, clock, EPOCH_MAX)
    && SameExcept(l, m, {Reserve, source, from, to, between}) && StateKept(l, m, Reserve) && StateKept(l, m, source)
  }

  /** The ephemeral account carries the stake, to another validator, whose accounts are as they were. */
  lemma AfterSending(l: Ledger, m: Ledger, source: Address, target: Address, between: Address, v: Records, voteTo: nat,
                     seed: U64, clock: U64, lamports: U64, rent: U64)
    requires source.Validator? && target.Transient? && target.vote == source.vote && between.Ephemeral?
    requires DelegatedTo(At(l, source), source.vote)
    requires CanSend(l, source, target, between, voteTo, lamports, rent)
    requires Sent(l, m, source, target, between, voteTo, clock)
    requires Balance(m, between) == Balance(l, between) + ToppedUp(l, target, rent, true) + lamports - rent
    ensures voteTo != source.vote && !At(m, between).kind.Uninitialized? && lamports <= Balance(m, between)
    ensures FindVote(v, voteTo).Some? ==>
      var r := RecordOf(v, voteTo);
      CanReceive(m, r, seed, clock, lamports, Balance(m, between))
      == CanReceive(l, r, seed, clock, lamports, Balance(m, between))
  {
  }

  lemma SentAndReceived(l: Ledger, m: Ledger, n: Ledger, source: Address, from: Address, to: Address,
                        between: Address, clock: U64)
    requires source.Validator? && from.Transient? && to.Transient? && between.Ephemeral? && from != to
    requires Sent(l, m, source, from, between, to.vote, clock) && Received(m, n, between, to, clock)
    requires StateKept(l, m, source)
    ensures Redelegated(l, n, source, from, to, between, clock)
  {
  }

  predicate CanSend(l: Ledger, source: Address, target: Address, between: Address, voteTo: nat, lamports: U64,
                    rent: U64)
  {
    && Creatable(l, target) && CanTopUp(l, target, rent, true, false) && Creatable(l, between)
    && At(l, source).kind.Delegated? && !DelegatedTo(At(l, source), voteTo) && lamports <= Balance(l, source)
    && ToppedUp(l, target, rent, true) + lamports <= U64_MAX
    && Balance(l, between) + ToppedUp(l, target, rent, true) + lamports - rent <= U64_MAX
  }

  /**
   Stake out of a validator account, through a transient account that keeps the rent,
   into an ephemeral one delegated anew.
   */
  method SendStake(accounts: Ledger, source: Address, target: Address, between: Address, voteTo: nat, clock: U64,
                   lamports: U64, rent: U64)
    returns (r: Result<Ledger, StakePoolError>)
    requires source.Validator? && target.Transient? && between.Ephemeral?
    ensures r.Ok? <==> CanSend(accounts, source, target, between, voteTo, lamports, rent)
    ensures r.Ok? ==>
      Balance(r.value, between) == Balance(accounts, between) + ToppedUp(accounts, target, rent, true) + lamports - rent
    ensures r.Ok? && Balance(accounts, target) == 0 && Balance(accounts, between) == 0 ==>
      SentAmounts(accounts, r.value, source, target, between, lamports, rent)
    ensures r.Ok? ==> Sent(accounts, r.value, source, target, between, voteTo, clock)
    ensures r.Ok? && lamports < Balance(accounts, source) ==> StateKept(accounts, r.value, source)
  {
    hide Split, Redelegate, Pay;
    if !Creatable(accounts, target) { return Err(StakeProgramRefused); }
    var funded := TopUp(accounts, target, rent, true, false);
    if funded.Err? { return funded; }
    var split := Split(funded.value, source, target, lamports);
    if split.None? { return Err(StakeProgramRefused); }
    if !Creatable(split.value, between) { return Err(StakeProgramRefused); }
    var sent := Redelegate(split.value, target, between, voteTo, clock, rent);
    r := if sent.None? then Err(StakeProgramRefused) else Ok(sent.value);
  }

  /** `carried` is what the ephemeral account brings, `lamports` what is booked of it. */
  predicate CanReceive(l: Ledger, receiver: ValidatorStakeInfo, seed: U64, clock: U64, lamports: U64, carried: U64) {
    var standing, pending := At(l, receiver.ValidatorAddress()), At(l, Transient(receiver.vote, seed));
    && DelegatedTo(standing, receiver.vote) && standing.usable && receiver.status == Active
    && receiver.transient + lamports <= U64_MAX
    && if receiver.transient > 0 then
         && seed == receiver.transientSeed && DelegatedTo(pending, receiver.vote) && pending.usable
         && Activating(pending, clock) && pending.lamports + carried <= U64_MAX
       else pending.kind.Uninitialized? && pending.lamports + lamports <= U64_MAX
  }

  lemma ReceiveFits(l: Ledger, receiver: ValidatorStakeInfo, seed: U64, clock: U64, lamports: U64, carried: U64)
    requires CanReceive(l, receiver, seed, clock, lamports, carried)
    ensures receiver.transient + lamports <= U64_MAX && (receiver.transient > 0 ==> seed == receiver.transientSeed)
  {
  }

  /** The receiving half: the ephemeral stake joins the validator's transient account, or becomes it. */
  method ReceiveStake(accounts: Ledger, between: Address, receiver: ValidatorStakeInfo, seed: U64, clock: U64,
                      lamports: U64)
    returns (r: Result<Ledger, StakePoolError>)
    requires between.Ephemeral? && !At(accounts, between).kind.Uninitialized? && lamports <= Balance(accounts, between)
    ensures r.Ok? <==> CanReceive(accounts, receiver, seed, clock, lamports, Balance(accounts, between))
    ensures r.Ok? && Balance(accounts, between) == lamports ==>
      Moved(accounts, r.value, between, Transient(receiver.vote, seed), lamports)
    ensures r.Ok? ==> Received(accounts, r.value, between, Transient(receiver.vote, seed), clock)
  {
    hide Merge, Split, Pay;
    var target := Transient(receiver.vote, seed);
    var standing := At(accounts, receiver.ValidatorAddress());
    if !DelegatedTo(standing, receiver.vote) || !standing.usable { return Err(WrongStakeStake); }
    if receiver.status != Active { return Err(ValidatorNotFound); }
    if CheckedAdd(receiver.transient, lamports).None? { return Err(CalculationFailure); }
    var moved: Option<Ledger>;
    if receiver.transient > 0 {
      if receiver.transientSeed != seed { return Err(InvalidStakeAccountAddress); }
      var pending := At(accounts, target);
      if !DelegatedTo(pending, receiver.vote) || !pending.usable || !Activating(pending, clock) {
        return Err(WrongStakeStake);
      }
      moved := Merge(accounts, between, target);
    } else {
      if !Creatable(accounts, target) { return Err(StakeProgramRefused); }
      moved := Split(accounts, between, target, lamports);
    }
    r := if moved.None? then Err(StakeProgramRefused) else Ok(moved.value);
  }

  // ---------------------------------------------------------- pool tokens

  /** The tokens of every holder after a deposit's split is paid out, also when holders coincide. */
  ghost predicate SplitPaid(t: Tokens, u: Tokens, split: SharePrice.DepositSplit, user: nat, manager: nat,
                            referrer: nat)
  {
    forall h :: TokensOf(u, h) == TokensOf(t, h)
      + (if h == user then split.user else 0) + (if h == manager then split.manager else 0)
        + (if h == referrer then split.referral else 0)
  }

  /** `t` with `amount` more in the hands of one holder. */
  ghost predicate Paid(t: Tokens, u: Tokens, holder: nat, amount: U64) {
    && (forall h :: TokensOf(u, h) == TokensOf(t, h) + if h == holder then amount else 0)
    && Supply(u) == Supply(t) + amount
  }

  method MintTo(tokens: Tokens, holder: nat, amount: U64) returns (r: Option<Tokens>)
    ensures r.Some? <==> TokensOf(tokens, holder) + amount <= U64_MAX
    ensures r.Some? ==> Paid(tokens, r.value, holder, amount)
  {
    r := Mint(tokens, holder, amount);
    MintSupply(tokens, holder, amount);
    hide Supply;
  }

  /** Nothing is minted for nothing. */
  method MintFee(tokens: Tokens, holder: nat, amount: U64) returns (r: Option<Tokens>)
    ensures r.Some? <==> TokensOf(tokens, holder) + amount <= U64_MAX
    ensures r.Some? ==> Paid(tokens, r.value, holder, amount)
  {
    if amount == 0 { return Some(tokens); }
    r := MintTo(tokens, holder, amount);
  }

  /** Nobody's tokens overflow. */
  predicate CanPaySplit(t: Tokens, split: SharePrice.DepositSplit, user: nat, manager: nat, referrer: nat) {
    forall h :: h in {user, manager, referrer} ==>
      TokensOf(t, h) + (if h == user then split.user else 0) + (if h == manager then split.manager else 0)
        + (if h == referrer then split.referral else 0) <= U64_MAX
  }

  method PaySplit(tokens: Tokens, split: SharePrice.DepositSplit, user: nat, manager: nat, referrer: nat)
    returns (r: Option<Tokens>)
    ensures r.Some? <==> CanPaySplit(tokens, split, user, manager, referrer)
    ensures r.Some? ==> SplitPaid(tokens, r.value, split, user, manager, referrer)
    ensures r.Some? ==> Supply(r.value) == Supply(tokens) + split.user + split.manager + split.referral
  {
    hide Supply, TokensOf, Mint;
    r := MintTo(tokens, user, split.user);
    if r.None? { return; }
    var managed := MintFee(r.value, manager, split.manager);
    if managed.None? { return None; }
    r := MintFee(managed.value, referrer, split.referral);
  }

  /** Tokens of every holder after a withdrawal: the burnt part is gone, the fee has moved. */
  ghost predicate FeePaid(t: Tokens, u: Tokens, from: nat, manager: nat, burnt: U64, fee: U64) {
    forall h :: TokensOf(u, h) as int == TokensOf(t, h)
      - (if h == from then burnt + fee else 0) + (if h == manager then fee else 0)
  }

  predicate CanBurnAndPay(t: Tokens, from: nat, manager: nat, burnt: U64, fee: U64) {
    burnt + fee <= TokensOf(t, from) && (from != manager ==> TokensOf(t, manager) + fee <= U64_MAX)
  }

  method BurnAndPayFee(tokens: Tokens, from: nat, manager: nat, burnt: U64, fee: U64) returns (r: Option<Tokens>)
    ensures r.Some? <==> CanBurnAndPay(tokens, from, manager, burnt, fee)
    ensures r.Some? ==> FeePaid(tokens, r.value, from, manager, burnt, fee)
    ensures r.Some? ==> Supply(r.value) == Supply(tokens) - burnt
  {
    hide Supply;
    r := Burn(tokens, from, burnt);
    if r.None? { return; }
    BurnSupply(tokens, from, burnt);
    if fee > 0 {
      var paid := Transfer(r.value, from, manager, fee);
      if paid.None? { return None; }
      TransferSupply(r.value, from, manager, fee);
      r := paid;
    }
  }

  /**
   The mint counts what the holders have. The pool's own count may be higher, because
   a holder can burn tokens without the pool.
   */
  ghost predicate TokensAgree(p: StakePool, mintSupply: U64, t: Tokens) {
    mintSupply == Supply(t) && mintSupply <= p.poolTokenSupply && p.FeesBounded()
  }

  /** Tokens, the mint's supply and the pool's count change by the same amount. */
  lemma TokensMove(p: StakePool, q: StakePool, mint: U64, mint': U64, t: Tokens, u: Tokens)
    requires q.FeesBounded() == p.FeesBounded() && q.poolTokenSupply - p.poolTokenSupply == mint' - mint
    requires p.FeesBounded() ==> Supply(u) - Supply(t) == mint' - mint
    ensures TokensAgree(p, mint, t) ==> TokensAgree(q, mint', u)
    ensures q.poolTokenSupply - mint' == p.poolTokenSupply - mint
  {
  }

  lemma AgreedFees(p: StakePool, mint: U64, t: Tokens)
    ensures TokensAgree(p, mint, t) ==> p.FeesBounded()
  {
  }

  lemma PreferencesAside(p: StakePool, q: StakePool, mintSupply: U64, t: Tokens)
    requires q == p.(preferredDeposit := q.preferredDeposit, preferredWithdraw := q.preferredWithdraw)
    ensures TokensAgree(q, mintSupply, t) == TokensAgree(p, mintSupply, t)
  {
  }

  class StakePoolProgram {
    var pool: StakePool
    var validators: Records
    var accounts: Ledger
    var mintSupply: U64
    var tokens: Tokens
    const maxValidators: nat
    const listDataLength: nat
    const managerFeeAccount: nat
    /** Rent of a stake account, of the reserve, and the stake program's minimum delegation. */
    const stakeRent: U64
    const reserveRent: U64
    const stakeMinimum: U64

    /** The list is one that fits its account, with one record a validator. */
    ghost predicate ListShape()
      reads this
    {
      ListFits(validators, maxValidators, listDataLength)
    }

    /** The mint's supply is the holders' and no more than the recorded one, and fees are at most one. */
    ghost predicate TokensSound()
      reads this
    {
      TokensAgree(pool, mintSupply, tokens)
    }

    ghost predicate Inv()
      reads this
    {
      Sound(pool, accounts, validators, MinReserve()) && ListShape() && TokensSound()
    }

    /** The recorded supply less the mint's. */
    function SupplyGap(): int
      reads this
    {
      pool.poolTokenSupply - mintSupply
    }

    twostate predicate GapKept()
      reads this
    {
      SupplyGap() == old(SupplyGap())
    }

    /** What every instruction keeps in every state, balanced books or not. */
    twostate predicate ShapeKept()
      reads this
    {
      (old(ListShape()) ==> ListShape()) && (old(TokensSound()) ==> TokensSound())
    }

    twostate predicate Unchanged()
      reads this
    {
      && pool == old(pool) && validators == old(validators) && accounts == old(accounts)
      && mintSupply == old(mintSupply) && tokens == old(tokens)
    }

    twostate predicate PoolAndTokensKept()
      reads this
    {
      pool == old(pool) && mintSupply == old(mintSupply) && tokens == old(tokens)
    }

    function MinReserve(): U64 {
      SaturatingAdd(reserveRent, MINIMUM_RESERVE_LAMPORTS)
    }

    /** What a stake account must keep. */
    function MinStake(): U64 {
      SaturatingAdd(stakeRent, MinimumDelegation(stakeMinimum))
    }

    constructor Create(pool: StakePool, accounts: Ledger, tokens: Tokens, mintSupply: U64, listDataLength: nat,
                       maxValidators: nat, managerFeeAccount: nat, stakeRent: U64, reserveRent: U64, stakeMinimum: U64)
      ensures this.pool == pool && validators == [] && this.accounts == accounts && this.tokens == tokens
      ensures this.mintSupply == mintSupply && this.listDataLength == listDataLength
        && this.maxValidators == maxValidators
      ensures this.managerFeeAccount == managerFeeAccount && this.stakeRent == stakeRent
      ensures this.reserveRent == reserveRent && this.stakeMinimum == stakeMinimum
    {
      this.pool, this.accounts, this.tokens, this.mintSupply := pool, accounts, tokens, mintSupply;
      this.validators := [];
      this.listDataLength, this.maxValidators, this.managerFeeAccount := listDataLength, maxValidators,
        managerFeeAccount;
      this.stakeRent, this.reserveRent, this.stakeMinimum := stakeRent, reserveRent, stakeMinimum;
    }

    /**
     A new pool. Whatever the reserve holds beyond its minimum is the first total
     and, one for one, the first supply, which goes to the manager.
     */
    static method Initialize(clock: U64, epochFee: Fee, withdrawalFee: Fee, depositFee: Fee, referralFee: nat,
                             maxValidators: nat, listDataLength: nat, accounts: Ledger, tokens: Tokens,
                             managerFeeAccount: nat, stakeRent: U64, reserveRent: U64, stakeMinimum: U64)
      returns (r: Result<StakePoolProgram, StakePoolError>)
      ensures r.Ok? ==> fresh(r.value)
      ensures r.Ok? <==>
        && maxValidators == CalculateMaxValidators(listDataLength) > 0
        && epochFee.AtMostOne() && withdrawalFee.AtMostOne() && depositFee.AtMostOne() && referralFee <= 100
        && At(accounts, Reserve).kind.Initialized? && At(accounts, Reserve).usable && Supply(tokens) == 0
        && Balance(accounts, Reserve) >= SaturatingAdd(reserveRent, MINIMUM_RESERVE_LAMPORTS)
      ensures r.Ok? ==>
        var p := r.value.pool;
        && r.value.validators == [] && r.value.accounts == accounts && r.value.maxValidators == maxValidators
        && p.totalLamports + r.value.MinReserve() == Balance(accounts, Reserve)
        && p.poolTokenSupply == p.totalLamports == r.value.mintSupply && p.lastUpdateEpoch == clock
        && (forall h :: TokensOf(r.value.tokens, h)
                          == TokensOf(tokens, h) + if h == managerFeeAccount then p.totalLamports else 0)
        && FeeGrowth.StakeTrack(p) == FeeGrowth.SolTrack(p) == FeeGrowth.Track(withdrawalFee, Nothing)
        && p.epochFee == epochFee && p.nextEpochFee.Nothing? && p.stakeDepositFee == p.solDepositFee == depositFee
        && p.stakeReferralFee == p.solReferralFee == referralFee && p.preferredDeposit == p.preferredWithdraw == None
        && p.lastEpochPoolTokenSupply == p.lastEpochTotalLamports == 0
        && r.value.listDataLength == listDataLength && r.value.managerFeeAccount == managerFeeAccount
        && r.value.stakeRent == stakeRent && r.value.reserveRent == reserveRent && r.value.stakeMinimum == stakeMinimum
      ensures r.Ok? ==> r.value.ListShape() && r.value.TokensSound() && r.value.SupplyGap() == 0
      ensures r.Ok? && NoStray(accounts, []) ==> r.value.Inv()
    {
      if CalculateMaxValidators(listDataLength) != maxValidators || maxValidators == 0 {
        return Err(UnexpectedValidatorListAccountSize);
      }
      if !epochFee.AtMostOne() || !withdrawalFee.AtMostOne() || !depositFee.AtMostOne() || referralFee > 100 {
        return Err(FeeTooHigh);
      }
      NoTokens(tokens);
      if HasTokens(tokens) { return Err(NonZeroPoolTokenSupply); }
      var reserve := At(accounts, Reserve);
      if !reserve.kind.Initialized? || !reserve.usable { return Err(WrongStakeStake); }
      var total := CheckedSub(reserve.lamports, SaturatingAdd(reserveRent, MINIMUM_RESERVE_LAMPORTS));
      if total.None? { return Err(CalculationFailure); }
      TokensWithin(tokens, managerFeeAccount);
      var minted := if total.value > 0 then Mint(tokens, managerFeeAccount, total.value) else Some(tokens);
      if minted.None? { return Err(TokenProgramRefused); }
      if total.value > 0 { MintSupply(tokens, managerFeeAccount, total.value); }
      var pool := StakePool(total.value, total.value, clock, epochFee, Nothing, None, None, depositFee,
                            withdrawalFee, Nothing, referralFee, depositFee, referralFee, withdrawalFee, Nothing, 0, 0);
      if NoStray(accounts, []) { NoStrayMatches(accounts, []); }
      var p := new StakePoolProgram.Create(pool, accounts, minted.value, total.value, listDataLength, maxValidators,
                                           managerFeeAccount, stakeRent, reserveRent, stakeMinimum);
      r := Ok(p);
    }

    // ------------------------------------------------------- moving stake

    /** The checks before stake is increased. */
    predicate IncreaseAllowed(clock: U64, vote: nat, lamports: U64, transientSeed: U64, ephemeralSeed: Option<U64>)
      reads this
    {
      && clock <= pool.lastUpdateEpoch && FindVote(validators, vote).Some?
      && var record, total := RecordOf(validators, vote), SaturatingAdd(lamports, stakeRent);
         var stake := At(accounts, record.ValidatorAddress());
         && record.status == Active && DelegatedTo(stake, vote) && stake.usable
         && (record.transient > 0 ==>
               ephemeralSeed.Some? && transientSeed == record.transientSeed
               && Activating(At(accounts, record.TransientAddress()), clock))
         && lamports >= MinimumDelegation(stakeMinimum)
         && SaturatingSub(Balance(accounts, Reserve), total) >= stakeRent
    }

    method CheckIncrease(clock: U64, vote: nat, lamports: U64, transientSeed: U64, ephemeralSeed: Option<U64>)
      returns (r: Result<nat, StakePoolError>)
      ensures r.Ok? <==> IncreaseAllowed(clock, vote, lamports, transientSeed, ephemeralSeed)
      ensures r.Ok? ==> FindVote(validators, vote) == Some(r.value)
    {
      if pool.lastUpdateEpoch < clock { return Err(StakeListAndPoolOutOfDate); }
      var found := FindVote(validators, vote);
      if found.None? { return Err(ValidatorNotFound); }
      var record := validators[found.value];
      if record.transient > 0 {
        if ephemeralSeed.None? { return Err(TransientAccountInUse); }
        if transientSeed != record.transientSeed { return Err(InvalidSeeds); }
        if !Activating(At(accounts, Transient(vote, transientSeed)), clock) { return Err(WrongStakeStake); }
      }
      var validatorAccount := At(accounts, record.ValidatorAddress());
      if !DelegatedTo(validatorAccount, vote) || !validatorAccount.usable { return Err(WrongStakeStake); }
      if record.status != Active { return Err(ValidatorNotFound); }
      if lamports < MinimumDelegation(stakeMinimum) { return Err(InsufficientDelegation); }
      var total := SaturatingAdd(lamports, stakeRent);
      if SaturatingSub(Balance(accounts, Reserve), total) < stakeRent { return Err(InsufficientFunds); }
      r := Ok(found.value);
    }

    /** When stake can be increased. */
    predicate Increasable(clock: U64, vote: nat, lamports: U64, transientSeed: U64, ephemeralSeed: Option<U64>)
      reads this
    {
      && IncreaseAllowed(clock, vote, lamports, transientSeed, ephemeralSeed)
      && var record, total := RecordOf(validators, vote), SaturatingAdd(lamports, stakeRent);
         && record.transient + total <= U64_MAX
         && Fundable(accounts, vote, total, transientSeed, ephemeralSeed, record.transient > 0)
    }

    /** Reserve lamports are in the transient account of the validator, and its record says so. */
    twostate predicate Increased(clock: U64, vote: nat, lamports: U64, transientSeed: U64, ephemeralSeed: Option<U64>)
      reads this
    {
      && PoolAndTokensKept() && FindVote(old(validators), vote).Some?
      && var record, total := RecordOf(old(validators), vote), SaturatingAdd(lamports, stakeRent);
         && record.transient + total <= U64_MAX
         && Replaced(old(validators), validators, vote,
                     record.(transient := record.transient + total, transientSeed := transientSeed))
         && SameExcept(old(accounts), accounts, {Reserve, Transient(vote, transientSeed)} + Named(ephemeralSeed))
         && (Balance(old(accounts), Reserve) > total ==> StateKept(old(accounts), accounts, Reserve))
         && (if record.transient > 0 then StateKept(old(accounts), accounts, Transient(vote, transientSeed))
             else At(old(accounts), Reserve).kind.Initialized? ==>
               At(accounts, Transient(vote, transientSeed)).kind == Delegated(vote, clock, EPOCH_MAX))
         && (old(Inv()) ==> Moved(old(accounts), accounts, Reserve, Transient(vote, transientSeed), total))
    }

    method IncreaseValidatorStake(clock: U64, vote: nat, lamports: U64, transientSeed: U64, ephemeralSeed: Option<U64>)
      returns (r: Result<(), StakePoolError>)
      modifies this
      ensures r.Err? ==> Unchanged()
      ensures ShapeKept() && GapKept()
      ensures r.Ok? <==> old(Increasable(clock, vote, lamports, transientSeed, ephemeralSeed))
      ensures r.Ok? ==> PoolAndTokensKept()
      ensures r.Ok? ==> Increased(clock, vote, lamports, transientSeed, ephemeralSeed)
      ensures r.Ok? && old(Inv()) ==> Inv()
    {
      hide ListFits, Sound, FindVote, Balance, Moved, MinReserve, StakePool.FeesBounded, Supply, Fundable, StateKept,
           SameExcept, Named, At;
      var found := CheckIncrease(clock, vote, lamports, transientSeed, ephemeralSeed);
      if found.Err? { return Err(found.error); }
      var record, total := validators[found.value], SaturatingAdd(lamports, stakeRent);

      if Inv() && ephemeralSeed.Some? { EphemeralEmpty(pool, accounts, validators, MinReserve(), ephemeralSeed.value); }
      var funded := FundTransient(accounts, vote, clock, total, transientSeed, ephemeralSeed, record.transient > 0);
      if funded.None? { return Err(StakeProgramRefused); }
      var l := funded.value;
      var newTransient := CheckedAdd(record.transient, total);
      if newTransient.None? { return Err(CalculationFailure); }
      var updated := record.(transient := newTransient.value, transientSeed := transientSeed);
      if Inv() { IncreaseKeeps(pool, accounts, l, validators, found.value, transientSeed, total, MinReserve()); }
      accounts := l;
      ReplacedFits(validators, found.value, updated, maxValidators, listDataLength);
      validators := validators[found.value := updated];
      r := Ok(());
    }

    /** The checks before stake is decreased. */
    predicate DecreaseAllowed(clock: U64, vote: nat, lamports: U64, transientSeed: U64, ephemeralSeed: Option<U64>)
      reads this
    {
      && clock <= pool.lastUpdateEpoch && FindVote(validators, vote).Some?
      && var record := RecordOf(validators, vote);
         var source := record.ValidatorAddress();
         && DelegatedTo(At(accounts, source), vote)
         && (record.transient > 0 ==>
               ephemeralSeed.Some? && transientSeed == record.transientSeed
               && Deactivating(At(accounts, record.TransientAddress()), clock))
         && lamports >= MinimumDelegation(stakeMinimum)
         && Balance(accounts, source) - lamports >= MinStake()
    }

    method CheckDecrease(clock: U64, vote: nat, lamports: U64, transientSeed: U64, ephemeralSeed: Option<U64>)
      returns (r: Result<nat, StakePoolError>)
      ensures r.Ok? <==> DecreaseAllowed(clock, vote, lamports, transientSeed, ephemeralSeed)
      ensures r.Ok? ==> FindVote(validators, vote) == Some(r.value)
    {
      if pool.lastUpdateEpoch < clock { return Err(StakeListAndPoolOutOfDate); }
      var found := FindVote(validators, vote);
      if found.None? { return Err(ValidatorNotFound); }
      var record := validators[found.value];
      var source := record.ValidatorAddress();
      if !DelegatedTo(At(accounts, source), vote) { return Err(WrongStakeStake); }
      if record.transient > 0 {
        if ephemeralSeed.None? { return Err(TransientAccountInUse); }
        if transientSeed != record.transientSeed { return Err(InvalidSeeds); }
        if !Deactivating(At(accounts, Transient(vote, transientSeed)), clock) { return Err(WrongStakeStake); }
      }
      if lamports < MinimumDelegation(stakeMinimum) { return Err(AccountNotRentExempt); }
      var remaining := CheckedSub(Balance(accounts, source), lamports);
      if remaining.None? || remaining.value < MinStake() { return Err(InsufficientFunds); }
      r := Ok(found.value);
    }

    /** When stake can be decreased. */
    predicate Decreasable(clock: U64, vote: nat, lamports: U64, transientSeed: U64, ephemeralSeed: Option<U64>,
                          fundRentExemptReserve: bool)
      reads this
    {
      && DecreaseAllowed(clock, vote, lamports, transientSeed, ephemeralSeed)
      && var record := RecordOf(validators, vote);
         && lamports <= record.active
         && CanRelease(accounts, record.ValidatorAddress(), vote, lamports, transientSeed, ephemeralSeed,
                       fundRentExemptReserve, stakeRent, record.transient > 0)
    }

    /** Stake of the validator is in its transient account, where it deactivates, and its record says so. */
    twostate predicate Decreased(clock: U64, vote: nat, lamports: U64, transientSeed: U64, ephemeralSeed: Option<U64>)
      reads this
    {
      && PoolAndTokensKept() && FindVote(old(validators), vote).Some?
      && var record, target := RecordOf(old(validators), vote), Transient(vote, transientSeed);
         && lamports <= record.active
         && Replaced(old(validators), validators, vote,
              record.(active := record.active - lamports, transient := Balance(accounts, target),
                      transientSeed := transientSeed))
         && ReleasedFrom(old(accounts), accounts, record.ValidatorAddress(), target, ephemeralSeed, clock,
                         record.transient > 0)
    }

    method DecreaseValidatorStake(clock: U64, vote: nat, lamports: U64, transientSeed: U64,
                                  ephemeralSeed: Option<U64>, fundRentExemptReserve: bool)
      returns (r: Result<(), StakePoolError>)
      modifies this
      ensures r.Err? ==> Unchanged()
      ensures ShapeKept() && GapKept()
      ensures r.Ok? <==>
        old(Decreasable(clock, vote, lamports, transientSeed, ephemeralSeed, fundRentExemptReserve))
      ensures r.Ok? ==> PoolAndTokensKept()
      ensures r.Ok? ==> Decreased(clock, vote, lamports, transientSeed, ephemeralSeed)
      ensures r.Ok? && old(Inv()) ==>
        var record := RecordOf(old(validators), vote);
        var paid := if fundRentExemptReserve then stakeRent else 0;
        && Inv()
        && Released(old(accounts), accounts, record.ValidatorAddress(), Transient(vote, transientSeed), lamports, paid)
        && Balance(accounts, Transient(vote, transientSeed)) == record.transient + lamports + paid
    {
      hide ListFits, Sound, FindVote, Balance, BalancesExcept, MinReserve, StakePool.FeesBounded, Supply, CanRelease,
           Released, ReleasedFrom, At, TokensAgree;
      var found := CheckDecrease(clock, vote, lamports, transientSeed, ephemeralSeed);
      if found.Err? { return Err(found.error); }
      var record := validators[found.value];
      var source, target := record.ValidatorAddress(), Transient(vote, transientSeed);

      if Inv() {
        if ephemeralSeed.Some? { EphemeralEmpty(pool, accounts, validators, MinReserve(), ephemeralSeed.value); }
        if record.transient == 0 {
          FreshTransientEmpty(pool, accounts, validators, MinReserve(), found.value, transientSeed);
        }
      }
      var released := ReleaseStake(accounts, source, vote, clock, lamports, transientSeed, ephemeralSeed,
                                   fundRentExemptReserve, stakeRent, record.transient > 0);
      if released.Err? { return Err(released.error); }
      var l := released.value;
      var newActive := CheckedSub(record.active, lamports);
      if newActive.None? { return Err(CalculationFailure); }
      var updated := record.(active := newActive.value, transient := Balance(l, target),
                             transientSeed := transientSeed);
      if Inv() {
        DecreaseKeeps(pool, accounts, l, validators, found.value, transientSeed, lamports,
                      if fundRentExemptReserve then stakeRent else 0, MinReserve());
      }
      accounts := l;
      ReplacedFits(validators, found.value, updated, maxValidators, listDataLength);
      validators := validators[found.value := updated];
      r := Ok(());
    }

    /** The checks before stake is redelegated. */
    predicate RedelegationAllowed(clock: U64, voteFrom: nat, lamports: U64)
      reads this
    {
      && clock <= pool.lastUpdateEpoch && FindVote(validators, voteFrom).Some?
      && var sender := RecordOf(validators, voteFrom);
         var source := sender.ValidatorAddress();
         && sender.status == Active && sender.transient == 0 && MinStake() <= lamports <= sender.active
         && SaturatingSub(Balance(accounts, source), lamports) >= MinStake()
         && DelegatedTo(At(accounts, source), voteFrom)
    }

    method CheckRedelegation(clock: U64, voteFrom: nat, lamports: U64) returns (r: Result<nat, StakePoolError>)
      ensures r.Ok? <==> RedelegationAllowed(clock, voteFrom, lamports)
      ensures r.Ok? ==> FindVote(validators, voteFrom) == Some(r.value)
      ensures r.Ok? ==>
        var record := validators[r.value];
        && record.transient == 0 && lamports <= record.active
        && DelegatedTo(At(accounts, record.ValidatorAddress()), voteFrom)
        && lamports < Balance(accounts, record.ValidatorAddress())
    {
      if pool.lastUpdateEpoch < clock { return Err(StakeListAndPoolOutOfDate); }
      if lamports < MinStake() { return Err(InsufficientDelegation); }
      var found := FindVote(validators, voteFrom);
      if found.None? { return Err(ValidatorNotFound); }
      var record := validators[found.value];
      var source := record.ValidatorAddress();
      if SaturatingSub(Balance(accounts, source), lamports) < MinStake() { return Err(InsufficientFunds); }
      if !DelegatedTo(At(accounts, source), voteFrom) { return Err(WrongStakeStake); }
      if record.transient > 0 { return Err(TransientAccountInUse); }
      if record.status != Active { return Err(ValidatorNotFound); }
      if CheckedSub(record.active, lamports).None? { return Err(CalculationFailure); }
      r := Ok(found.value);
    }

    /** When stake can be redelegated. */
    predicate Redelegable(clock: U64, voteFrom: nat, voteTo: nat, lamports: U64, sourceSeed: U64, ephemeralSeed: U64,
                          destinationSeed: U64)
      reads this
    {
      && RedelegationAllowed(clock, voteFrom, lamports) && FindVote(validators, voteTo).Some?
      && var source, target, between := RecordOf(validators, voteFrom).ValidatorAddress(),
             Transient(voteFrom, sourceSeed), Ephemeral(ephemeralSeed);
         && CanSend(accounts, source, target, between, voteTo, lamports, stakeRent)
         && CanReceive(accounts, RecordOf(validators, voteTo), destinationSeed, clock, lamports,
                       Balance(accounts, between) + ToppedUp(accounts, target, stakeRent, true) + lamports - stakeRent)
    }

    /**
     The checks of a redelegation and its two halves: where both validators are listed,
     and the accounts after the sending half and after both.
     */
    method MoveStake(clock: U64, voteFrom: nat, voteTo: nat, lamports: U64, sourceSeed: U64, ephemeralSeed: U64,
                     destinationSeed: U64)
      returns (r: Result<(nat, nat, Ledger, Ledger), StakePoolError>)
      ensures r.Ok? <==> Redelegable(clock, voteFrom, voteTo, lamports, sourceSeed, ephemeralSeed, destinationSeed)
      ensures r.Ok? ==>
        var (i, j, l, m) := r.value;
        && FindVote(validators, voteFrom) == Some(i) && FindVote(validators, voteTo) == Some(j) && i != j
        && voteFrom != voteTo
        && var record, receiver := validators[i], validators[j];
           var source, target, between := record.ValidatorAddress(), Transient(voteFrom, sourceSeed),
               Ephemeral(ephemeralSeed);
           && record.transient == 0 && lamports <= record.active && receiver.transient + lamports <= U64_MAX
           && (receiver.transient > 0 ==> receiver.transientSeed == destinationSeed)
           && Redelegated(accounts, m, source, target, Transient(voteTo, destinationSeed), between, clock)
           && (Balance(accounts, target) == 0 && Balance(accounts, between) == 0 ==>
                 && SentAmounts(accounts, l, source, target, between, lamports, stakeRent)
                 && Moved(l, m, between, Transient(voteTo, destinationSeed), lamports))
    {
      hide FindVote, Moved, BalancesExcept, Balance, At, Sent, Received, Redelegated, StateKept, DelegatedTo, CanSend,
           CanReceive, ToppedUp, RedelegationAllowed, SentAmounts;
      var found := CheckRedelegation(clock, voteFrom, lamports);
      if found.Err? { return Err(found.error); }
      var record := validators[found.value];
      var source := record.ValidatorAddress();
      var sender := record.(active := record.active - lamports, transient := stakeRent, transientSeed := sourceSeed);
      var v := validators[found.value := sender];

      var target, between := Transient(voteFrom, sourceSeed), Ephemeral(ephemeralSeed);
      var sent := SendStake(accounts, source, target, between, voteTo, clock, lamports, stakeRent);
      if sent.Err? { return Err(sent.error); }
      var l := sent.value;

      SameFinds(validators, found.value, sender, voteTo);
      AfterSending(accounts, l, source, target, between, validators, voteTo, destinationSeed, clock, lamports,
                   stakeRent);
      var goal := FindVote(v, voteTo);
      if goal.None? { return Err(ValidatorNotFound); }
      var receiver := v[goal.value];
      assert receiver == RecordOf(validators, voteTo);
      var received := ReceiveStake(l, between, receiver, destinationSeed, clock, lamports);
      if received.Err? { return Err(received.error); }
      ReceiveFits(l, receiver, destinationSeed, clock, lamports, Balance(l, between));
      SentAndReceived(accounts, l, received.value, source, target, Transient(voteTo, destinationSeed), between, clock);
      SentExactly(accounts, l, source, target, between, lamports, stakeRent);
      r := Ok((found.value, goal.value, l, received.value));
    }

    /** Stake of one validator is in the transient account of the other, and both records say so. */
    twostate predicate StakeMoved(clock: U64, voteFrom: nat, voteTo: nat, lamports: U64, sourceSeed: U64,
                                  ephemeralSeed: U64, destinationSeed: U64)
      reads this
    {
      && PoolAndTokensKept() && voteFrom != voteTo
      && FindVote(old(validators), voteFrom).Some? && FindVote(old(validators), voteTo).Some?
      && var source, destination := RecordOf(old(validators), voteFrom), RecordOf(old(validators), voteTo);
         && lamports <= source.active && destination.transient + lamports <= U64_MAX
         && validators == old(validators)
              [FindVote(old(validators), voteFrom).value :=
                source.(active := source.active - lamports, transient := stakeRent, transientSeed := sourceSeed)]
              [FindVote(old(validators), voteTo).value :=
                destination.(transient := destination.transient + lamports, transientSeed := destinationSeed)]
         && Redelegated(old(accounts), accounts, source.ValidatorAddress(), Transient(voteFrom, sourceSeed),
                        Transient(voteTo, destinationSeed), Ephemeral(ephemeralSeed), clock)
    }

    method RedelegateStake(clock: U64, voteFrom: nat, voteTo: nat, lamports: U64,
                           sourceSeed: U64, ephemeralSeed: U64, destinationSeed: U64)
      returns (r: Result<(), StakePoolError>)
      modifies this
      ensures r.Err? ==> Unchanged()
      ensures ShapeKept() && GapKept()
      ensures r.Ok? <==>
        old(Redelegable(clock, voteFrom, voteTo, lamports, sourceSeed, ephemeralSeed, destinationSeed))
      ensures r.Ok? ==> PoolAndTokensKept() && voteFrom != voteTo
      ensures r.Ok? ==> StakeMoved(clock, voteFrom, voteTo, lamports, sourceSeed, ephemeralSeed, destinationSeed)
      ensures r.Ok? && old(Inv()) ==>
        var source := RecordOf(old(validators), voteFrom);
        && Inv()
        && BalancesExcept(old(accounts), accounts,
             {Reserve, source.ValidatorAddress(), Transient(voteFrom, sourceSeed), Transient(voteTo, destinationSeed)})
        && Balance(accounts, Reserve) as int == Balance(old(accounts), Reserve) - stakeRent
    {
      hide ListFits, Sound, FindVote, StakePool.FeesBounded, Supply, Moved, MinReserve, BalancesExcept, Balance, At,
           Redelegated, Redelegable, TokensAgree;
      var moved := MoveStake(clock, voteFrom, voteTo, lamports, sourceSeed, ephemeralSeed, destinationSeed);
      if moved.Err? { return Err(moved.error); }
      var (i, j, l, m) := moved.value;
      var record, receiver := validators[i], validators[j];
      var sender := record.(active := record.active - lamports, transient := stakeRent, transientSeed := sourceSeed);
      var updated := receiver.(transient := receiver.transient + lamports, transientSeed := destinationSeed);
      if Inv() {
        FreshTransientEmpty(pool, accounts, validators, MinReserve(), i, sourceSeed);
        EphemeralEmpty(pool, accounts, validators, MinReserve(), ephemeralSeed);
        RedelegationKeeps(pool, accounts, l, m, validators, i, sender, j, updated, Ephemeral(ephemeralSeed), lamports,
                          MinReserve());
      }
      ReplacedFits(validators, i, sender, maxValidators, listDataLength);
      ReplacedFits(validators[i := sender], j, updated, maxValidators, listDataLength);
      accounts, validators := m, validators[i := sender][j := updated];
      r := Ok(());
    }

    // ------------------------------------------------ the validator list

    /** When a validator can be added. */
    predicate Addable(clock: U64, vote: nat, validatorSeed: nat)
      reads this
    {
      var stake := Validator(vote, validatorSeed);
      && clock <= pool.lastUpdateEpoch && |validators| != maxValidators && FindVote(validators, vote).None?
      && !At(accounts, Reserve).kind.Uninitialized? && MinStake() <= Balance(accounts, Reserve)
      && Balance(accounts, Reserve) - MinStake() >= MinReserve()
      && Creatable(accounts, stake) && Balance(accounts, stake) + MinStake() <= U64_MAX
    }

    /** The validator is listed, its account funded and delegated to it. */
    twostate predicate Added(clock: U64, vote: nat, validatorSeed: nat)
      reads this
    {
      var stake := Validator(vote, validatorSeed);
      && PoolAndTokensKept()
      && validators == old(validators) + [ValidatorStakeInfo(MinStake(), 0, clock, 0, validatorSeed, Active, vote)]
      && Moved(old(accounts), accounts, Reserve, stake, MinStake())
      && At(accounts, stake).kind == Delegated(vote, clock, EPOCH_MAX)
      && At(accounts, stake).usable == At(old(accounts), Reserve).usable
      && SameExcept(old(accounts), accounts, {Reserve, stake})
      && (Balance(old(accounts), Reserve) > MinStake() ==> StateKept(old(accounts), accounts, Reserve))
      && Balance(accounts, Reserve) >= MinReserve()
    }

    method AddValidator(clock: U64, vote: nat, validatorSeed: nat) returns (r: Result<(), StakePoolError>)
      modifies this
      ensures r.Err? ==> Unchanged()
      ensures ShapeKept() && GapKept()
      ensures r.Ok? <==> old(Addable(clock, vote, validatorSeed))
      ensures r.Ok? && old(ListShape()) ==>
        BigVectors.VEC_SIZE_BYTES + BigVectors.Extent(|validators|, RECORD_LEN) <= listDataLength - HEADER_LEN
      ensures r.Ok? ==> PoolAndTokensKept()
      ensures r.Ok? ==> Added(clock, vote, validatorSeed)
      ensures r.Ok? && old(Inv()) ==> Inv()
    {
      hide Split, Delegate, Drift, Matches, DistinctVotes, Recorded, FindFrom;
      if pool.lastUpdateEpoch < clock { return Err(StakeListAndPoolOutOfDate); }
      if maxValidators == |validators| { return Err(AccountDataTooSmall); }
      if FindVote(validators, vote).Some? { return Err(ValidatorAlreadyAdded); }
      var stake := Validator(vote, validatorSeed);
      var required := SaturatingAdd(MinimumDelegation(stakeMinimum), stakeRent);
      if SaturatingSub(Balance(accounts, Reserve), required) < MinReserve() { return Err(InsufficientFunds); }
      if !Creatable(accounts, stake) { return Err(StakeProgramRefused); }
      var split := Split(accounts, Reserve, stake, required);
      if split.None? { return Err(StakeProgramRefused); }
      var delegated := Delegate(split.value, stake, vote, clock);
      if delegated.None? { return Err(StakeProgramRefused); }
      var record := ValidatorStakeInfo(required, 0, clock, 0, validatorSeed, Active, vote);
      if ListShape() { PushNeverFails(listDataLength, |validators|); }
      AppendedDistinct(validators, record);
      if Inv() { NewRecord(pool, accounts, delegated.value, validators, record, MinReserve()); }
      accounts := delegated.value;
      validators := validators + [record];
      r := Ok(());
    }

    /** When a validator can be removed. */
    predicate Removable(clock: U64, vote: nat)
      reads this
    {
      && clock <= pool.lastUpdateEpoch && FindVote(validators, vote).Some?
      && var record := RecordOf(validators, vote);
         record.status == Active && DelegatedTo(At(accounts, record.ValidatorAddress()), vote)
    }

    /** The validator is marked, its stake deactivates, and it is preferred no more. */
    twostate predicate Removed(clock: U64, vote: nat)
      reads this
    {
      && mintSupply == old(mintSupply) && tokens == old(tokens)
      && pool == old(pool).(
           preferredDeposit := if old(pool).preferredDeposit == Some(vote) then None else old(pool).preferredDeposit,
           preferredWithdraw := if old(pool).preferredWithdraw == Some(vote) then None else old(pool).preferredWithdraw)
      && FindVote(old(validators), vote).Some?
      && var record := RecordOf(old(validators), vote);
         var pending := At(old(accounts), record.TransientAddress());
         && At(old(accounts), record.ValidatorAddress()).kind.Delegated?
         && Replaced(old(validators), validators, vote, record.(status :=
              if record.transient > 0 && pending.kind.Delegated? && pending.usable then DeactivatingAll
                else DeactivatingValidator))
         && RetiredBoth(old(accounts), accounts, record, clock)
    }

    method RemoveValidator(clock: U64, vote: nat) returns (r: Result<(), StakePoolError>)
      modifies this
      ensures r.Err? ==> Unchanged()
      ensures ShapeKept() && GapKept()
      ensures r.Ok? <==> old(Removable(clock, vote))
      ensures r.Ok? ==> Removed(clock, vote)
      ensures pool == old(pool).(preferredDeposit := pool.preferredDeposit, preferredWithdraw := pool.preferredWithdraw)
      ensures r.Ok? ==> BalancesExcept(old(accounts), accounts, {})
      ensures r.Ok? && old(Inv()) ==> Inv()
    {
      hide Sound, FindVote, MinReserve, TokensAgree, ListFits, StakePool.FeesBounded;
      if pool.lastUpdateEpoch < clock { return Err(StakeListAndPoolOutOfDate); }
      var found := FindVote(validators, vote);
      if found.None? { return Err(ValidatorNotFound); }
      var record := validators[found.value];
      var stake := record.ValidatorAddress();
      if !DelegatedTo(At(accounts, stake), vote) { return Err(WrongStakeStake); }
      if record.status != Active { return Err(ValidatorNotFound); }
      var l, status := RetireStake(accounts, record, clock);
      var updated := record.(status := status);
      var p := pool;
      if p.preferredDeposit == Some(vote) { p := p.(preferredDeposit := None); }
      if p.preferredWithdraw == Some(vote) { p := p.(preferredWithdraw := None); }
      PreferencesAside(pool, p, mintSupply, tokens);
      if Inv() { MarkRecord(pool, p, accounts, l, validators, found.value, status, MinReserve()); }
      accounts := l;
      ReplacedFits(validators, found.value, updated, maxValidators, listDataLength);
      validators := validators[found.value := updated];
      pool := p;
      r := Ok(());
    }

    /**
     Drops the records marked for removal. The books shift by exactly what those
     records still hold, so they stay balanced only when that is nothing.
     */
    method CleanupRemovedValidatorEntries()
      modifies this
      ensures PoolAndTokensKept() && accounts == old(accounts) && ShapeKept() && GapKept()
      ensures validators == Kept(old(validators))
      ensures Drift(pool, accounts, validators, MinReserve())
           == old(Drift(pool, accounts, validators, MinReserve())) - Recorded(Dropped(old(validators)))
      ensures old(Inv()) ==> (Inv() <==> Recorded(Dropped(old(validators))) == 0)
    {
      RecordedSplit(validators);
      KeptMembers(validators);
      if ListShape() { KeptDistinct(validators); }
      if Inv() && Recorded(Dropped(validators)) == 0 { CleanupMatches(accounts, validators); }
      validators := Kept(validators);
    }

    method SetPreferredValidator(forDeposit: bool, vote: Option<nat>) returns (r: Result<(), StakePoolError>)
      modifies this
      ensures r.Err? ==> Unchanged()
      ensures ShapeKept() && GapKept()
      ensures r.Ok? <==> (vote.Some? ==>
        FindVote(old(validators), vote.value).Some? && RecordOf(old(validators), vote.value).status == Active)
      ensures r.Ok? ==>
        pool == if forDeposit then old(pool).(preferredDeposit := vote) else old(pool).(preferredWithdraw := vote)
      ensures r.Ok? ==>
        validators == old(validators) && accounts == old(accounts) && mintSupply == old(mintSupply)
          && tokens == old(tokens)
      ensures old(Inv()) ==> Inv()
    {
      if vote.Some? {
        var found := FindVote(validators, vote.value);
        if found.None? { return Err(ValidatorNotFound); }
        if validators[found.value].status != Active { return Err(InvalidPreferredValidator); }
      }
      pool := if forDeposit then pool.(preferredDeposit := vote) else pool.(preferredWithdraw := vote);
      r := Ok(());
    }

    method ChangeFee(clock: U64, fee: FeeType) returns (r: Result<(), StakePoolError>)
      modifies this
      ensures r.Err? ==> Unchanged()
      ensures ShapeKept() && GapKept()
      ensures match FeeGrowth.SetFee(old(pool), clock, fee)
        case Ok(p) => r.Ok? && pool == p
        case Err(e) => r == Err(e)
      ensures validators == old(validators) && accounts == old(accounts) && mintSupply == old(mintSupply)
        && tokens == old(tokens)
      ensures pool.totalLamports == old(pool).totalLamports && pool.poolTokenSupply == old(pool).poolTokenSupply
      ensures old(Inv()) ==> Inv()
    {
      if fee.CanOnlyChangeNextEpoch() && pool.lastUpdateEpoch < clock { return Err(StakeListAndPoolOutOfDate); }
      if fee.TooHigh() { return Err(FeeTooHigh); }
      var changed := FeeGrowth.UpdateFee(pool, fee);
      if changed.Err? { return Err(changed.error); }
      if pool.FeesBounded() { FeeGrowth.SetFeeKeepsFeesBounded(pool, clock, fee); }
      FeeGrowth.SetFeeKeepsAmounts(pool, clock, fee);
      pool := changed.value;
      r := Ok(());
    }

    // -------------------------------------------------- deposits and withdrawals

    /** When SOL can be deposited. */
    predicate SolDepositable(clock: U64, wallet: nat, lamports: U64, minimumOut: Option<U64>, user: nat, referrer: nat)
      reads this
    {
      && clock <= pool.lastUpdateEpoch && CanQuoteSol(pool, lamports, minimumOut)
      && lamports <= Balance(accounts, External(wallet)) && Balance(accounts, Reserve) + lamports <= U64_MAX
      && var split := SolSplit(pool, lamports).value;
         && CanPaySplit(tokens, split, user, managerFeeAccount, referrer)
         && mintSupply + split.minted <= U64_MAX
    }

    /** Lamports are in the reserve, and tokens minted for them at the old price. */
    twostate predicate SolDeposited(wallet: nat, lamports: U64, user: nat, referrer: nat)
      reads this
    {
      var split := SolSplit(old(pool), lamports);
      && validators == old(validators)
      && split.Some? && SplitPaid(old(tokens), tokens, split.value, user, managerFeeAccount, referrer)
      && SharePrice.DepositStep(old(pool), pool, lamports, split.value.minted)
      && OnlyAmounts(old(pool), pool)
      && Moved(old(accounts), accounts, External(wallet), Reserve, lamports)
      && SameExcept(old(accounts), accounts, {External(wallet), Reserve})
      && StateKept(old(accounts), accounts, External(wallet)) && StateKept(old(accounts), accounts, Reserve)
      && mintSupply == old(mintSupply) + split.value.minted
    }

    method DepositSol(clock: U64, wallet: nat, lamports: U64, minimumOut: Option<U64>, user: nat, referrer: nat)
      returns (r: Result<(), StakePoolError>)
      modifies this
      ensures r.Err? ==> Unchanged()
      ensures ShapeKept() && GapKept()
      ensures r.Ok? <==> old(SolDepositable(clock, wallet, lamports, minimumOut, user, referrer))
      ensures r.Ok? ==> SharePrice.Step(old(pool), pool) && validators == old(validators)
      ensures r.Ok? ==> SolDeposited(wallet, lamports, user, referrer) && OnlyAmounts(old(pool), pool)
      ensures r == Err(CalculationFailure) && old(Inv()) ==>
        DepositOverflows(pool, lamports)
      ensures r.Ok? && old(Inv()) ==> Inv()
    {
      hide Matches, DistinctVotes, Recorded, Supply, OnlyAmounts, SplitPaid, At, MinReserve, TokensAgree, SolSplit,
           CanQuoteSol, DepositOverflows, SharePrice.DepositStep, StakePool.FeesBounded, SharePrice.Step;
      if pool.lastUpdateEpoch < clock { return Err(StakeListAndPoolOutOfDate); }
      AgreedFees(pool, mintSupply, tokens);
      var quote := QuoteSolDeposit(pool, lamports, minimumOut);
      if quote.Err? { return Err(quote.error); }
      var (split, p) := quote.value;
      var paid := Pay(accounts, External(wallet), Reserve, lamports);
      if paid.None? { return Err(StakeProgramRefused); }
      var distributed := PaySplit(tokens, split, user, managerFeeAccount, referrer);
      if distributed.None? || mintSupply + split.minted > U64_MAX { return Err(TokenProgramRefused); }
      if Inv() { MatchesKept(accounts, paid.value, validators); }
      SharePrice.DepositIsStep(pool, p, lamports, split.minted);
      TokensMove(pool, p, mintSupply, mintSupply + split.minted, tokens, distributed.value);
      accounts, tokens, mintSupply, pool := paid.value, distributed.value, mintSupply + split.minted, p;
      r := Ok(());
    }

    /** When a stake account can be deposited. */
    predicate StakeDepositable(clock: U64, vote: nat, deposit: nat, absorbed: U64, minimumOut: Option<U64>, user: nat,
                               referrer: nat)
      reads this
    {
      && DepositTarget(pool, validators, accounts, clock, vote)
      && var lamports := Balance(accounts, External(deposit));
         && CanTakeDeposit(accounts, External(deposit), RecordOf(validators, vote).ValidatorAddress(), absorbed)
         && CanQuote(pool, lamports, absorbed, minimumOut)
         && CanPaySplit(tokens, StakeSplit(pool, lamports, absorbed).value, user, managerFeeAccount, referrer)
         && mintSupply + StakeSplit(pool, lamports, absorbed).value.minted <= U64_MAX
    }

    /** The stake account is the pool's, and tokens minted for it at the old price. */
    twostate predicate StakeDeposited(vote: nat, deposit: nat, absorbed: U64, user: nat, referrer: nat)
      reads this
    {
      var lamports := Balance(old(accounts), External(deposit));
      var split := StakeSplit(old(pool), lamports, absorbed);
      && split.Some? && SplitPaid(old(tokens), tokens, split.value, user, managerFeeAccount, referrer)
      && SharePrice.DepositStep(old(pool), pool, lamports, split.value.minted)
      && OnlyAmounts(old(pool), pool)
      && mintSupply == old(mintSupply) + split.value.minted
      && FindVote(old(validators), vote).Some?
      && var record := RecordOf(old(validators), vote);
         && Taken(old(accounts), accounts, record.ValidatorAddress(), External(deposit), absorbed)
         && Replaced(old(validators), validators, vote, record.(active := Balance(accounts, record.ValidatorAddress())))
    }

    /** `absorbed` is what the stake program adds to the delegation when it merges the deposited account. */
    method DepositStake(clock: U64, vote: nat, deposit: nat, absorbed: U64, minimumOut: Option<U64>, user: nat,
                        referrer: nat)
      returns (r: Result<(), StakePoolError>)
      modifies this
      ensures r.Err? ==> Unchanged()
      ensures ShapeKept() && GapKept()
      ensures r.Ok? <==> old(StakeDepositable(clock, vote, deposit, absorbed, minimumOut, user, referrer))
      ensures r.Ok? ==> SharePrice.Step(old(pool), pool)
      ensures r.Ok? ==> StakeDeposited(vote, deposit, absorbed, user, referrer) && OnlyAmounts(old(pool), pool)
      ensures r == Err(CalculationFailure) && old(Inv()) ==>
        var lamports := Balance(accounts, External(deposit));
        absorbed > lamports || DepositOverflows(pool, lamports)
      ensures r.Ok? && old(Inv()) ==> Inv()
    {
      hide ListFits, Sound, Supply, OnlyAmounts, DepositOverflows, FindVote, Balance, At, Taken, SplitPaid, MinReserve,
           TokensAgree, DelegatedTo, SharePrice.StakeDepositSplit, SharePrice.Step, SharePrice.DepositStep,
           StakePool.CalcPoolTokensForDeposit, StakePool.FeesBounded;
      var found := FindDepositTarget(pool, validators, accounts, clock, vote);
      if found.Err? { return Err(found.error); }
      var record := validators[found.value];
      var stake := record.ValidatorAddress();
      var lamports := Balance(accounts, External(deposit));
      var taken := TakeDeposit(accounts, External(deposit), stake, absorbed);
      if taken.Err? { return Err(taken.error); }
      var l := taken.value;
      AgreedFees(pool, mintSupply, tokens);
      var quote := QuoteStakeDeposit(pool, lamports, absorbed, minimumOut);
      if quote.Err? { return Err(quote.error); }
      var (split, p) := quote.value;
      var distributed := PaySplit(tokens, split, user, managerFeeAccount, referrer);
      if distributed.None? || mintSupply + split.minted > U64_MAX { return Err(TokenProgramRefused); }
      var updated := record.(active := Balance(l, stake));
      SharePrice.DepositIsStep(pool, p, lamports, split.minted);
      TokensMove(pool, p, mintSupply, mintSupply + split.minted, tokens, distributed.value);
      if Inv() {
        DepositKeeps(pool, p, accounts, l, validators, found.value, External(deposit), absorbed, MinReserve());
      }
      accounts := l;
      tokens := distributed.value;
      mintSupply := mintSupply + split.minted;
      pool := p;
      ReplacedFits(validators, found.value, updated, maxValidators, listDataLength);
      validators := validators[found.value := updated];
      r := Ok(());
    }

    /** The fee on a withdrawal; none for the manager's own tokens or when the fee account is unusable. */
    function WithdrawalFee(fee: Fee, poolTokens: U64, from: nat, feeInfoValid: bool): (r: Option<U64>)
      ensures r.Some? ==>
        if from == managerFeeAccount || !feeInfoValid then r.value == 0 else Charged(fee, poolTokens, r.value)
    {
      ApplyCharges(fee, poolTokens);
      if managerFeeAccount == from || !feeInfoValid then Some(0) else ToU64(fee.Apply(poolTokens))
    }

    /** When SOL can be withdrawn. */
    predicate SolWithdrawable(clock: U64, target: Address, poolTokens: U64, minimumOut: Option<U64>, from: nat,
                              feeInfoValid: bool)
      reads this
    {
      var fee := WithdrawalFee(pool.solWithdrawalFee, poolTokens, from, feeInfoValid);
      && clock <= pool.lastUpdateEpoch && CanQuoteWithdrawal(pool, fee, poolTokens, minimumOut)
      && var burnt := poolTokens - fee.value;
         var lamports := pool.CalcLamportsWithdrawAmount(burnt).value;
         SolPayable(target, lamports, from, burnt, fee.value)
    }

    /** When the reserve, the holder and the pool's counts allow for a SOL withdrawal. */
    predicate SolPayable(target: Address, lamports: U64, from: nat, burnt: U64, fee: U64)
      reads this
    {
      && At(accounts, Reserve).kind.Initialized? && lamports <= Balance(accounts, Reserve)
      && Balance(accounts, Reserve) - lamports >= MinReserve()
      && (target != Reserve ==> Balance(accounts, target) + lamports <= U64_MAX)
      && CanBurnAndPay(tokens, from, managerFeeAccount, burnt, fee) && burnt <= mintSupply
      && burnt <= pool.poolTokenSupply && lamports <= pool.totalLamports
    }

    method PaySol(target: Address, lamports: U64, from: nat, burnt: U64, fee: U64)
      returns (r: Result<(Ledger, Tokens), StakePoolError>)
      ensures r.Ok? <==> SolPayable(target, lamports, from, burnt, fee)
      ensures r.Ok? ==>
        var (l, t) := r.value;
        && WithdrawTo(accounts, Reserve, target, lamports) == Some(l)
        && FeePaid(tokens, t, from, managerFeeAccount, burnt, fee) && Supply(t) == Supply(tokens) - burnt
        && burnt <= mintSupply && burnt <= pool.poolTokenSupply && lamports <= pool.totalLamports
    {
      hide Supply, WithdrawTo, FeePaid, CanBurnAndPay, PaidOut;
      if !At(accounts, Reserve).kind.Initialized? { return Err(WrongStakeStake); }
      if SaturatingSub(Balance(accounts, Reserve), lamports) < MinReserve() { return Err(SolWithdrawalTooLarge); }
      var left := BurnAndPayFee(tokens, from, managerFeeAccount, burnt, fee);
      if left.None? || burnt > mintSupply { return Err(TokenProgramRefused); }
      var paid := WithdrawTo(accounts, Reserve, target, lamports);
      if paid.None? { return Err(StakeProgramRefused); }
      var supply, total := CheckedSub(pool.poolTokenSupply, burnt), CheckedSub(pool.totalLamports, lamports);
      if supply.None? || total.None? { return Err(CalculationFailure); }
      r := Ok((paid.value, left.value));
    }

    /** The checks of a SOL withdrawal, the fee, the lamports, and the accounts and tokens it leaves. */
    method PrepareSol(clock: U64, target: Address, poolTokens: U64, minimumOut: Option<U64>, from: nat,
                      feeInfoValid: bool)
      returns (r: Result<(U64, U64, Ledger, Tokens), StakePoolError>)
      ensures r.Ok? <==> SolWithdrawable(clock, target, poolTokens, minimumOut, from, feeInfoValid)
      ensures r.Ok? ==>
        var (fee, lamports, l, t) := r.value;
        && WithdrawalFee(pool.solWithdrawalFee, poolTokens, from, feeInfoValid) == Some(fee) && fee <= poolTokens
        && pool.CalcLamportsWithdrawAmount(poolTokens - fee) == Some(lamports) && lamports > 0
        && WithdrawTo(accounts, Reserve, target, lamports) == Some(l)
        && FeePaid(tokens, t, from, managerFeeAccount, poolTokens - fee, fee)
        && Supply(t) == Supply(tokens) - (poolTokens - fee)
        && poolTokens - fee <= mintSupply && poolTokens - fee <= pool.poolTokenSupply && lamports <= pool.totalLamports
    {
      hide Supply, WithdrawTo, FeePaid, WithdrawalFee, SolPayable, StakePool.CalcLamportsWithdrawAmount;
      if pool.lastUpdateEpoch < clock { return Err(StakeListAndPoolOutOfDate); }
      var charge := WithdrawalFee(pool.solWithdrawalFee, poolTokens, from, feeInfoValid);
      var quote := QuoteWithdrawal(pool, charge, poolTokens, minimumOut);
      if quote.Err? { return Err(quote.error); }
      var (fee, lamports) := quote.value;
      var paid := PaySol(target, lamports, from, poolTokens - fee, fee);
      if paid.Err? { return Err(paid.error); }
      var (l, t) := paid.value;
      r := Ok((fee, lamports, l, t));
    }

    /** The fee has moved, the other tokens are burnt, and the reserve has paid for them at the old price. */
    twostate predicate SolWithdrawn(target: Address, poolTokens: U64, from: nat, feeInfoValid: bool)
      reads this
    {
      && validators == old(validators) && mintSupply <= old(mintSupply) <= mintSupply + poolTokens
      && var burnt := old(mintSupply) - mintSupply;
         var fee, paid := poolTokens - burnt, old(pool).CalcLamportsWithdrawAmount(burnt);
         && (if from == managerFeeAccount || !feeInfoValid then fee == 0
             else Charged(old(pool).solWithdrawalFee, poolTokens, fee))
         && FeePaid(old(tokens), tokens, from, managerFeeAccount, burnt, fee)
         && paid.Some? && SharePrice.WithdrawStep(old(pool), pool, burnt, paid.value)
         && old(pool).totalLamports - pool.totalLamports == paid.value
         && OnlyAmounts(old(pool), pool)
         && PaidOut(old(accounts), accounts, Reserve, target, paid.value)
         && SameExcept(old(accounts), accounts, {Reserve, target})
         && (paid.value < Balance(old(accounts), Reserve) ==> StateKept(old(accounts), accounts, Reserve))
    }

    method WithdrawSol(clock: U64, target: Address, poolTokens: U64, minimumOut: Option<U64>, from: nat,
                       feeInfoValid: bool)
      returns (r: Result<(), StakePoolError>)
      modifies this
      ensures r.Err? ==> Unchanged()
      ensures ShapeKept() && GapKept()
      ensures r.Ok? <==> old(SolWithdrawable(clock, target, poolTokens, minimumOut, from, feeInfoValid))
      ensures r.Ok? ==> SharePrice.Step(old(pool), pool) && validators == old(validators)
      ensures r.Ok? ==> SolWithdrawn(target, poolTokens, from, feeInfoValid) && OnlyAmounts(old(pool), pool)
      ensures r.Ok? && old(Inv()) ==> (Inv() <==> target.External?)
    {
      hide Sound, PaidOut, ListFits, Supply, OnlyAmounts, WithdrawTo, FeePaid, WithdrawalFee, TokensAgree, SameExcept,
           StateKept, SolWithdrawable, StakePool.CalcLamportsWithdrawAmount, SharePrice.Step;
      hide StakePool.FeesBounded, Charged;
      var prepared := PrepareSol(clock, target, poolTokens, minimumOut, from, feeInfoValid);
      if prepared.Err? { return Err(prepared.error); }
      var (fee, lamports, l, t) := prepared.value;
      var burnt := poolTokens - fee;
      var p := pool.(poolTokenSupply := pool.poolTokenSupply - burnt, totalLamports := pool.totalLamports - lamports);
      if Inv() { PaymentKeepsBooksIff(pool, p, accounts, l, validators, target, lamports, MinReserve()); }
      FeesStay(pool, p.poolTokenSupply, p.totalLamports);
      SharePrice.WithdrawIsStep(pool, p, burnt, lamports);
      TokensMove(pool, p, mintSupply, mintSupply - burnt, tokens, t);
      accounts, tokens, mintSupply, pool := l, t, mintSupply - burnt, p;
      r := Ok(());
    }

    /** What the account withdrawn from must keep, and the threshold above which stake counts as available. */
    function MinLeft(source: Address): U64 {
      SaturatingAdd(if source == Reserve then reserveRent else stakeRent, MinimumDelegation(stakeMinimum))
    }

    /** When stake can be withdrawn. */
    predicate StakeWithdrawable(clock: U64, source: Address, wallet: nat, poolTokens: U64, minimumOut: Option<U64>,
                                from: nat, feeInfoValid: bool)
      reads this
    {
      var fee := WithdrawalFee(pool.stakeWithdrawalFee, poolTokens, from, feeInfoValid);
      && clock <= pool.lastUpdateEpoch && CanQuoteWithdrawal(pool, fee, poolTokens, minimumOut)
      && pool.GetLamportsPerPoolToken().Some?
      && var burnt := poolTokens - fee.value;
         var full, perToken := pool.CalcLamportsWithdrawAmount(burnt).value, pool.GetLamportsPerPoolToken().value;
         var paid := PaidFrom(validators, accounts, source, full, MinLeft(source), perToken);
         && CanTake(validators, accounts, source, full, MinLeft(source), perToken, pool.preferredWithdraw,
                    MinReserve())
         && StakePayable(source, wallet, paid, from, burnt, fee.value)
    }

    /** When the user's account, the holder and the pool's counts allow for a stake withdrawal. */
    predicate StakePayable(source: Address, wallet: nat, paid: U64, from: nat, burnt: U64, fee: U64)
      reads this
    {
      && CanBurnAndPay(tokens, from, managerFeeAccount, burnt, fee) && burnt <= mintSupply
      && Creatable(accounts, External(wallet)) && paid <= Balance(accounts, source)
      && Balance(accounts, External(wallet)) + paid <= U64_MAX
      && burnt <= pool.poolTokenSupply && paid <= pool.totalLamports
    }

    method PayStake(source: Address, wallet: nat, paid: U64, from: nat, burnt: U64, fee: U64)
      returns (r: Result<(Ledger, Tokens), StakePoolError>)
      requires !source.External? && !At(accounts, source).kind.Uninitialized?
      ensures r.Ok? <==> StakePayable(source, wallet, paid, from, burnt, fee)
      ensures r.Ok? ==>
        var (l, t) := r.value;
        && Split(accounts, source, External(wallet), paid) == Some(l)
        && FeePaid(tokens, t, from, managerFeeAccount, burnt, fee) && Supply(t) == Supply(tokens) - burnt
        && burnt <= mintSupply && burnt <= pool.poolTokenSupply && paid <= pool.totalLamports
    {
      hide Supply, Split, FeePaid, CanBurnAndPay, Moved, SameExcept;
      var left := BurnAndPayFee(tokens, from, managerFeeAccount, burnt, fee);
      if left.None? || burnt > mintSupply { return Err(TokenProgramRefused); }
      var split := Split(accounts, source, External(wallet), paid);
      if split.None? { return Err(StakeProgramRefused); }
      var supply, total := CheckedSub(pool.poolTokenSupply, burnt), CheckedSub(pool.totalLamports, paid);
      if supply.None? || total.None? { return Err(CalculationFailure); }
      r := Ok((split.value, left.value));
    }

    /** The checks of a stake withdrawal, the fee, the lamports, and the list, accounts and tokens it leaves. */
    method PrepareStake(clock: U64, source: Address, wallet: nat, poolTokens: U64, minimumOut: Option<U64>,
                        from: nat, feeInfoValid: bool)
      returns (r: Result<(U64, U64, Records, Ledger, Tokens), StakePoolError>)
      ensures r.Ok? <==> StakeWithdrawable(clock, source, wallet, poolTokens, minimumOut, from, feeInfoValid)
      ensures r.Ok? ==>
        var (fee, paid, list, l, t) := r.value;
        && WithdrawalFee(pool.stakeWithdrawalFee, poolTokens, from, feeInfoValid) == Some(fee) && fee <= poolTokens
        && var full, perToken := pool.CalcLamportsWithdrawAmount(poolTokens - fee), pool.GetLamportsPerPoolToken();
        && full.Some? && perToken.Some? && paid <= full.value
        && Withdrawal(validators, list, accounts, source, full.value, paid, MinLeft(source), perToken.value,
                      pool.preferredWithdraw, MinReserve())
        && Split(accounts, source, External(wallet), paid) == Some(l)
        && FeePaid(tokens, t, from, managerFeeAccount, poolTokens - fee, fee)
        && Supply(t) == Supply(tokens) - (poolTokens - fee)
        && poolTokens - fee <= mintSupply && poolTokens - fee <= pool.poolTokenSupply && paid <= pool.totalLamports
    {
      hide Supply, Split, FeePaid, WithdrawalFee, Withdrawal, CanTake, PaidFrom, StakePayable, MinLeft, MinReserve,
           StakePool.CalcLamportsWithdrawAmount, StakePool.GetLamportsPerPoolToken;
      if pool.lastUpdateEpoch < clock { return Err(StakeListAndPoolOutOfDate); }
      var charge := WithdrawalFee(pool.stakeWithdrawalFee, poolTokens, from, feeInfoValid);
      var quote := QuoteWithdrawal(pool, charge, poolTokens, minimumOut);
      if quote.Err? { return Err(quote.error); }
      var (fee, lamports) := quote.value;
      var perToken := pool.GetLamportsPerPoolToken();
      if perToken.None? { return Err(CalculationFailure); }
      var taken := TakeFrom(validators, accounts, source, lamports, MinLeft(source), perToken.value,
                            pool.preferredWithdraw, MinReserve());
      if taken.Err? { return Err(taken.error); }
      var (paid, list) := taken.value;
      var done := PayStake(source, wallet, paid, from, poolTokens - fee, fee);
      if done.Err? { return Err(done.error); }
      var (l, t) := done.value;
      r := Ok((fee, paid, list, l, t));
    }

    /** The fee has moved, the other tokens are burnt, and the user has stake for them from an allowed source. */
    twostate predicate StakeWithdrawn(source: Address, wallet: nat, poolTokens: U64, from: nat, feeInfoValid: bool)
      reads this
    {
      && pool.totalLamports <= old(pool).totalLamports && mintSupply <= old(mintSupply) <= mintSupply + poolTokens
      && var burnt, paid := old(mintSupply) - mintSupply, old(pool).totalLamports - pool.totalLamports;
         var fee := poolTokens - burnt;
         var full, perToken := old(pool).CalcLamportsWithdrawAmount(burnt), old(pool).GetLamportsPerPoolToken();
         && (if from == managerFeeAccount || !feeInfoValid then fee == 0
             else Charged(old(pool).stakeWithdrawalFee, poolTokens, fee))
         && FeePaid(old(tokens), tokens, from, managerFeeAccount, burnt, fee)
         && full.Some? && perToken.Some?
         && Withdrawal(old(validators), validators, old(accounts), source, full.value, paid,
              SaturatingAdd(if source == Reserve then reserveRent else stakeRent, MinimumDelegation(stakeMinimum)),
              perToken.value, old(pool).preferredWithdraw, MinReserve())
         && SharePrice.WithdrawStep(old(pool), pool, burnt, paid)
         && OnlyAmounts(old(pool), pool)
         && Moved(old(accounts), accounts, source, External(wallet), paid)
         && SameExcept(old(accounts), accounts, {source, External(wallet)})
         && (paid < Balance(old(accounts), source) ==> StateKept(old(accounts), accounts, source))
         && At(accounts, External(wallet)).kind == At(old(accounts), source).kind
    }

    method WithdrawStake(clock: U64, source: Address, wallet: nat, poolTokens: U64, minimumOut: Option<U64>,
                         from: nat, feeInfoValid: bool)
      returns (r: Result<(), StakePoolError>)
      modifies this
      ensures r.Err? ==> Unchanged()
      ensures ShapeKept() && GapKept()
      ensures r.Ok? ==> SharePrice.Step(old(pool), pool)
      ensures r.Ok? <==>
        old(StakeWithdrawable(clock, source, wallet, poolTokens, minimumOut, from, feeInfoValid))
      ensures r.Ok? ==> StakeWithdrawn(source, wallet, poolTokens, from, feeInfoValid) && OnlyAmounts(old(pool), pool)
      ensures r.Ok? && old(Inv()) ==> Inv()
    {
      hide ListFits, Sound, Supply, OnlyAmounts, Split, Withdrawal, Moved, SameExcept, FeePaid, At, Balance, MinReserve,
           TokensAgree, StakeWithdrawable;
      hide SharePrice.Step, StakePool.CalcLamportsWithdrawAmount, StakePool.GetLamportsPerPoolToken,
           StakePool.FeesBounded, WithdrawalFee, Charged;
      var prepared := PrepareStake(clock, source, wallet, poolTokens, minimumOut, from, feeInfoValid);
      if prepared.Err? { return Err(prepared.error); }
      var (fee, paid, list, l, t) := prepared.value;
      var burnt := poolTokens - fee;
      var p := pool.(poolTokenSupply := pool.poolTokenSupply - burnt, totalLamports := pool.totalLamports - paid);
      FeesStay(pool, p.poolTokenSupply, p.totalLamports);
      SharePrice.WithdrawIsStep(pool, p, burnt, paid);
      TokensMove(pool, p, mintSupply, mintSupply - burnt, tokens, t);
      ghost var full, perToken := pool.CalcLamportsWithdrawAmount(burnt).value, pool.GetLamportsPerPoolToken().value;
      if Inv() {
        WithdrawalKeeps(pool, p, accounts, l, validators, list, source, External(wallet), full, paid, MinLeft(source),
                        perToken, pool.preferredWithdraw, MinReserve());
      }
      WithdrawalShape(validators, list, accounts, source, full, paid, MinLeft(source), perToken,
                      pool.preferredWithdraw, MinReserve(), maxValidators, listDataLength);
      accounts, validators, tokens, mintSupply, pool := l, list, t, mintSupply - burnt, p;
      r := Ok(());
    }

    // ------------------------------------------------------- epoch update

    /**
     `delegated` is the amount the stake program has delegated in each account. The
     listed validators stay the same whatever the status of their records, and
     balanced books stay balanced if and only if nothing of the updated accounts is
     missed.
     */
    method UpdateValidatorListBalance(clock: U64, start: nat, stakes: seq<Address>, delegated: Address -> U64,
                                      noMerge: bool)
      returns (r: Result<(), StakePoolError>)
      modifies this
      ensures r.Err? ==> Unchanged()
      ensures ShapeKept() && GapKept() && PoolAndTokensKept()
      ensures |stakes| % 2 != 0 ==> r == Err(UnexpectedValidatorListAccountSize)
      ensures |stakes| % 2 == 0 && start + |stakes| / 2 > |old(validators)| ==> r == Err(AccountDataTooSmall)
      ensures |stakes| % 2 == 0 && start + |stakes| / 2 <= |old(validators)| ==>
        match EpochUpdate.UpdateSlice(old(accounts), old(validators), start, stakes, delegated, stakeRent, clock,
                                      noMerge)
        case Ok(updated) => r.Ok? && accounts == updated.0 && validators == updated.1
        case Err(e) => r == Err(e)
      ensures r.Ok? && old(DistinctVotes(validators)) ==>
        EpochUpdate.PlacedAt(old(accounts), accounts, old(validators), validators,
                             EpochUpdate.Chosen(old(validators), start, stakes), delegated, stakeRent, clock, noMerge)
      ensures EpochUpdate.SameIdentities(old(validators), validators)
      ensures r.Ok? && old(Inv()) ==>
        && start + |stakes| / 2 <= |old(validators)|
        && var lost := EpochUpdate.SliceMissing(old(accounts), old(validators), start, stakes, delegated, stakeRent,
                                                clock, noMerge);
           (Inv() <==> lost == 0)
    {
      hide Sound, DistinctVotes, TokensAgree, MinReserve, EpochUpdate.UpdateRecord, EpochUpdate.SliceMissing,
           EpochUpdate.PlacedAt, EpochUpdate.Chosen;
      if |stakes| % 2 != 0 { return Err(UnexpectedValidatorListAccountSize); }
      if start + |stakes| / 2 > |validators| { return Err(AccountDataTooSmall); }
      var l, v := accounts, validators;
      var k := 0;
      assert stakes[2 * k..] == stakes;
      while k < |stakes| / 2
        invariant 0 <= k <= |stakes| / 2 && |v| == |validators|
        invariant EpochUpdate.UpdateSlice(l, v, start + k, stakes[2 * k..], delegated, stakeRent, clock, noMerge)
          == EpochUpdate.UpdateSlice(accounts, validators, start, stakes, delegated, stakeRent, clock, noMerge)
      {
        var stake, pending := stakes[2 * k], stakes[2 * k + 1];
        assert stakes[2 * k..][0] == stake && stakes[2 * k..][1] == pending
          && stakes[2 * k..][2..] == stakes[2 * (k + 1)..];
        var record := v[start + k];
        if stake == record.ValidatorAddress() && pending == record.TransientAddress() {
          var updated := EpochUpdate.UpdateRecord(l, record, delegated(stake), stakeRent, clock, noMerge);
          if updated.Err? { return Err(updated.error); }
          l, v := updated.value.0, v[start + k := updated.value.1];
        }
        k := k + 1;
      }
      EpochUpdate.SliceIdentities(accounts, validators, start, stakes, delegated, stakeRent, clock, noMerge);
      if ListShape() { EpochUpdate.IdentitiesDistinct(validators, v); }
      if DistinctVotes(validators) {
        EpochUpdate.SlicePlaces(accounts, validators, start, stakes, delegated, stakeRent, clock, noMerge);
      }
      if Inv() {
        EpochUpdate.SliceKeepsBooksIff(pool, accounts, validators, start, stakes, delegated, stakeRent, clock, noMerge,
                                       MinReserve());
      }
      accounts, validators := l, v;
      r := Ok(());
    }

    /** An update of the whole list leaves no lamports out; see EpochUpdate.Missing for when that is. */
    ghost predicate NothingMissed(clock: U64, noMerge: bool, delegated: Address -> U64)
      reads this
    {
      EpochUpdate.NothingMissing(accounts, validators, 0, delegated, stakeRent, clock, noMerge)
    }

    ghost predicate AllActive()
      reads this
    {
      forall i :: 0 <= i < |validators| ==> validators[i].status == Active
    }

    ghost predicate Stale(clock: U64)
      reads this
    {
      exists i :: 0 <= i < |validators| && validators[i].lastUpdateEpoch < clock
    }

    /** When the reserve and the list add up to a total: the reserve has its minimum and no record is out of date. */
    ghost predicate Summable(clock: U64)
      reads this
    {
      && At(accounts, Reserve).kind.Initialized? && !Stale(clock)
      && MinReserve() <= Balance(accounts, Reserve)
      && Balance(accounts, Reserve) + Recorded(validators) <= U64_MAX + MinReserve()
    }

    /** The pool's total from the reserve and the list; refused while a record is out of date. */
    method SumBalances(clock: U64) returns (r: Result<U64, StakePoolError>)
      ensures r.Ok? <==> Summable(clock)
      ensures r.Ok? ==> r.value + MinReserve() == Balance(accounts, Reserve) + Recorded(validators)
      ensures r == Err(StakeListOutOfDate) ==> Stale(clock)
    {
      assert Recorded(validators[..0]) == 0;
      hide Recorded, MinReserve;
      if !At(accounts, Reserve).kind.Initialized? { return Err(WrongStakeStake); }
      var total: Option<U64> := CheckedSub(Balance(accounts, Reserve), MinReserve());
      if total.None? { return Err(CalculationFailure); }
      var i := 0;
      while i < |validators|
        invariant 0 <= i <= |validators|
        invariant total.Some? && total.value + MinReserve() == Balance(accounts, Reserve) + Recorded(validators[..i])
        invariant forall j :: 0 <= j < i ==> validators[j].lastUpdateEpoch >= clock
      {
        if validators[i].lastUpdateEpoch < clock { return Err(StakeListOutOfDate); }
        var lamports := validators[i].StakeLamports();
        assert validators[..i + 1] == validators[..i] + [validators[i]];
        RecordedAppend(validators[..i], validators[i]);
        RecordedPrefix(validators, i + 1);
        if lamports.None? { return Err(CalculationFailure); }
        total := CheckedAdd(total.value, lamports.value);
        if total.None? { return Err(CalculationFailure); }
        i := i + 1;
      }
      assert validators[..i] == validators;
      r := Ok(total.value);
    }

    /** When the balance can be updated: there is a total, and the fee on the reward can be minted. */
    ghost predicate Updatable(clock: U64, feeInfoValid: bool)
      reads this
    {
      && Summable(clock)
      && var total: U64 := Balance(accounts, Reserve) + Recorded(validators) - MinReserve();
         var fee := if feeInfoValid then pool.CalcEpochFeeAmount(SaturatingSub(total, pool.totalLamports)) else Some(0);
         fee.Some? && (fee.value > 0 ==>
           TokensOf(tokens, managerFeeAccount) + fee.value <= U64_MAX && mintSupply + fee.value <= U64_MAX)
    }

    /** The total is what the pool has, the fee on the gain is minted, and the supply is the mint's. */
    twostate predicate BalanceUpdated(clock: U64, feeInfoValid: bool)
      reads this
    {
      && validators == old(validators) && accounts == old(accounts) && !Stale(clock)
      && Drift(pool, accounts, validators, MinReserve()) == 0
      && FeeMinted(old(pool), pool.totalLamports, old(mintSupply), mintSupply, old(tokens), tokens, managerFeeAccount,
                   feeInfoValid)
      && pool == AfterUpdate(old(pool), clock).(totalLamports := pool.totalLamports, poolTokenSupply := mintSupply)
    }

    method UpdateStakePoolBalance(clock: U64, feeInfoValid: bool) returns (r: Result<(), StakePoolError>)
      modifies this
      ensures r.Err? ==> Unchanged()
      ensures ShapeKept()
      ensures r.Ok? <==> old(Updatable(clock, feeInfoValid))
      ensures validators == old(validators) && accounts == old(accounts)
      ensures r == Err(StakeListOutOfDate) ==> Stale(clock)
      ensures mintSupply >= old(mintSupply)
      ensures r.Ok? ==> BalanceUpdated(clock, feeInfoValid)
      ensures r.Ok? && old(Matches(accounts, validators) && ListShape() && TokensSound()) ==> Inv()
      ensures r.Ok? && old(TokensSound()) && old(pool).totalLamports <= pool.totalLamports ==>
        SharePrice.UpdateStep(old(pool), pool, mintSupply - old(mintSupply))
      ensures r.Ok? && old(Inv()) ==> Inv() && SharePrice.Step(old(pool), pool)
    {
      hide Matches, DistinctVotes, Supply, StakePool.CalcEpochFeeAmount, StakePool.FeesBounded, AfterUpdate,
           SharePrice.Step;
      var total := SumBalances(clock);
      if total.Err? { return Err(total.error); }
      var reward := SaturatingSub(total.value, pool.totalLamports);
      var fee := if feeInfoValid then pool.CalcEpochFeeAmount(reward) else Some(0);
      if fee.None? { return Err(CalculationFailure); }
      var minted := Some(tokens);
      if fee.value > 0 {
        minted := Mint(tokens, managerFeeAccount, fee.value);
        if minted.None? || mintSupply + fee.value > U64_MAX { return Err(TokenProgramRefused); }
        MintSupply(tokens, managerFeeAccount, fee.value);
      }
      AfterUpdateFees(pool, clock, total.value, mintSupply + fee.value);
      mintSupply := mintSupply + fee.value;
      tokens := minted.value;
      ghost var before := pool;
      pool := AfterUpdate(pool, clock).(totalLamports := total.value, poolTokenSupply := mintSupply);
      if reward == 0 { NoRewardNoFee(before); }
      if old(TokensSound()) && before.totalLamports <= total.value { SharePrice.UpdateIsStep(before, pool, fee.value); }
      r := Ok(());
    }

    /** The client's instructions for the whole list, in the chunks it cuts. */
    method UpdateWholeList(clock: U64, noMerge: bool, delegated: Address -> U64) returns (r: Result<(), StakePoolError>)
      requires |validators| < 0x1_0000_0000 && DistinctVotes(validators)
      modifies this
      ensures ShapeKept() && GapKept() && PoolAndTokensKept()
      ensures EpochUpdate.SameIdentities(old(validators), validators)
      ensures r != Err(StakeListOutOfDate)
      ensures old(EpochUpdate.Holds(accounts, validators, stakeRent)) ==> r.Ok?
      ensures r.Ok? ==>
        EpochUpdate.Reached(old(accounts), old(validators), 0, accounts, validators, |validators|, delegated,
                            stakeRent, clock, noMerge)
      ensures r.Ok? && old(NothingMissed(clock, noMerge, delegated)) ==>
        EpochUpdate.Advanced(old(accounts), old(validators), 0, accounts, validators, |validators|, delegated,
                             stakeRent, clock, noMerge)
    {
      hide EpochUpdate.NothingMissing, EpochUpdate.Value, EpochUpdate.UpdateSlice, EpochUpdate.Pairs,
           EpochUpdate.SliceMissing, EpochUpdate.PlacedAt, EpochUpdate.Chosen, EpochUpdate.Holds,
           EpochUpdate.Progress, EpochUpdate.Advanced, EpochUpdate.Reached,
           EpochUpdate.SameIdentity, NoStray,
           ListFits, DistinctVotes, TokensAgree, Sound;
      ghost var l, v := accounts, validators;
      ghost var ready := EpochUpdate.NothingMissing(l, v, 0, delegated, stakeRent, clock, noMerge);
      var instructions := EpochUpdate.UpdateListInstructions(validators, noMerge);
      if ready {
        EpochUpdate.ProgressStarts(l, v, delegated, stakeRent, clock, noMerge);
        EpochUpdate.AdvancedRefl(l, v, 0, delegated, stakeRent, clock, noMerge);
      }
      EpochUpdate.IdentitiesRefl(v);
      EpochUpdate.ReachedRefl(l, v, 0, delegated, stakeRent, clock, noMerge);
      var i := 0;
      ghost var k := 0;
      while i < |instructions|
        invariant 0 <= i <= |instructions| && |validators| == |v| && ShapeKept() && PoolAndTokensKept()
        invariant k == EpochUpdate.Least(5 * i, |v|)
        invariant EpochUpdate.SameIdentities(v, validators)
        invariant EpochUpdate.Reached(l, v, 0, accounts, validators, k, delegated, stakeRent, clock, noMerge)
        invariant ready ==> EpochUpdate.Advanced(l, v, 0, accounts, validators, k, delegated, stakeRent, clock, noMerge)
      {
        var x := instructions[i];
        assert EpochUpdate.IsInstruction(v, i, x, noMerge);
        ghost var n := EpochUpdate.Least(5 * i + 5, |v|) - k;
        ghost var w, m := validators, accounts;
        EpochUpdate.SliceErrors(m, w, k, x.stakes, delegated, stakeRent, clock, noMerge);
        EpochUpdate.SamePairs(v, w, k, k + n);
        EpochUpdate.NextSucceeds(l, v, m, w, k, n, delegated, stakeRent, clock, noMerge);
        var done := UpdateValidatorListBalance(clock, x.start, x.stakes, delegated, x.noMerge);
        EpochUpdate.IdentitiesTrans(v, w, validators);
        if done.Err? { return done; }
        EpochUpdate.ReachedDistinct(l, v, 0, m, w, k, delegated, stakeRent, clock, noMerge);
        EpochUpdate.SliceReached(m, w, k, n, delegated, stakeRent, clock, noMerge);
        EpochUpdate.ReachedTrans(l, v, 0, m, w, k, accounts, validators, k + n, delegated, stakeRent, clock, noMerge);
        if ready {
          EpochUpdate.AdvancedProgress(l, v, 0, m, w, k, delegated, stakeRent, clock, noMerge);
          EpochUpdate.SliceProgress(m, w, k, n, delegated, stakeRent, clock, noMerge);
          EpochUpdate.AdvancedTrans(l, v, 0, m, w, k, accounts, validators, k + n, delegated, stakeRent, clock,
                                    noMerge);
        }
        i := i + 1;
        k := k + n;
      }
      r := Ok(());
    }

    /**
     A whole epoch update: the client's instructions for the list, the balance
     update, and the clean-up. The stale check never trips, and the new total is what
     reserve and accounts held before, less the reserve's minimum and less exactly what
     the update misses, whatever merges happen. When that is nothing, the books then
     balance if and only if the clean-up drops no lamports, as with active validators
     it never does.
     */
    method UpdateStakePool(clock: U64, noMerge: bool, delegated: Address -> U64, feeInfoValid: bool)
      returns (r: Result<(), StakePoolError>)
      requires |validators| < 0x1_0000_0000 && DistinctVotes(validators)
      modifies this
      ensures ShapeKept()
      ensures r != Err(StakeListOutOfDate)
      ensures r.Ok? ==>
        pool.totalLamports + MinReserve()
          + EpochUpdate.Missed(old(accounts), old(validators), 0, |old(validators)|, delegated, stakeRent, clock,
                               noMerge)
        == old(Balance(accounts, Reserve) + EpochUpdate.Lamports(accounts, validators))
      ensures r.Ok? ==>
        && FeeMinted(old(pool), pool.totalLamports, old(mintSupply), mintSupply, old(tokens), tokens,
                     managerFeeAccount, feeInfoValid)
        && exists w :: EpochUpdate.Reached(old(accounts), old(validators), 0, accounts, w, |w|, delegated, stakeRent,
                                           clock, noMerge) && validators == Kept(w)
      ensures r.Ok? && old(NothingMissed(clock, noMerge, delegated)) ==>
        && pool.totalLamports + MinReserve()
             == old(Balance(accounts, Reserve) + EpochUpdate.Lamports(accounts, validators))
        && exists w :: EpochUpdate.Advanced(old(accounts), old(validators), 0, accounts, w, |w|, delegated, stakeRent,
                                            clock, noMerge)
             && validators == Kept(w) && Drift(pool, accounts, validators, MinReserve()) + Recorded(Dropped(w)) == 0
             && (old(NoStray(accounts, validators) && ListShape() && TokensSound()) ==>
                 (Inv() <==> Recorded(Dropped(w)) == 0))
      ensures r.Ok? && old(NothingMissed(clock, noMerge, delegated) && AllActive()) ==>
        && EpochUpdate.Advanced(old(accounts), old(validators), 0, accounts, validators, |validators|,
                                delegated, stakeRent, clock, noMerge)
        && Drift(pool, accounts, validators, MinReserve()) == 0
        && (old(NoStray(accounts, validators) && ListShape() && TokensSound()) ==> Inv())
      ensures r.Ok? ==>
        pool == AfterUpdate(old(pool), clock).(totalLamports := pool.totalLamports, poolTokenSupply := mintSupply)
      ensures r.Ok? && old(TokensSound()) && old(pool).totalLamports <= pool.totalLamports ==>
        mintSupply >= old(mintSupply) && SharePrice.UpdateStep(old(pool), pool, mintSupply - old(mintSupply))
    {
      hide EpochUpdate.NothingMissing, EpochUpdate.Value, EpochUpdate.Lamports, EpochUpdate.Progress,
           EpochUpdate.Advanced, EpochUpdate.Reached, EpochUpdate.Missed, EpochUpdate.SameIdentity, NoStray,
           ListFits, DistinctVotes, TokensAgree, Sound,
           Matches, AfterUpdate, Balance, Recorded, FeeMinted, StakePool.CalcEpochFeeAmount, SharePrice.UpdateStep,
           SharePrice.Step;
      ghost var l, v := accounts, validators;
      ghost var ready := EpochUpdate.NothingMissing(l, v, 0, delegated, stakeRent, clock, noMerge);
      ghost var active := AllActive();
      r := UpdateWholeList(clock, noMerge, delegated);
      if r.Err? { return; }
      ghost var w := validators;
      EpochUpdate.AllReached(l, v, accounts, w, delegated, stakeRent, clock, noMerge);
      if ready {
        EpochUpdate.AllAdvanced(l, v, accounts, w, delegated, stakeRent, clock, noMerge);
        if active { NothingDropped(v, w); }
      }
      r := UpdateStakePoolBalance(clock, feeInfoValid);
      if r.Ok? {
        CleanupRemovedValidatorEntries();
        assert EpochUpdate.Reached(l, v, 0, accounts, w, |w|, delegated, stakeRent, clock, noMerge);
      }
    }
  }

  /** The fee on what the pool gained is minted to the manager, if the fee account is usable. */
  ghost predicate FeeMinted(p: StakePool, total: U64, mint: U64, mint': U64, t: Tokens, u: Tokens, manager: nat,
                            feeInfoValid: bool)
  {
    var fee := if feeInfoValid then p.CalcEpochFeeAmount(SaturatingSub(total, p.totalLamports)) else Some(0);
    && fee.Some? && mint' == mint + fee.value
    && forall h :: TokensOf(u, h) == TokensOf(t, h) + if h == manager then fee.value else 0
  }

  /** What a balance update does to the pool besides its total and supply; fees land once an epoch. */
  function AfterUpdate(p: StakePool, clock: U64): StakePool {
    if p.lastUpdateEpoch < clock then
      FeeGrowth.LandFees(p).(lastUpdateEpoch := clock, lastEpochTotalLamports := p.totalLamports,
                             lastEpochPoolTokenSupply := p.poolTokenSupply)
    else p
  }

  /** In the terms of the growth bound: an update that enters a new epoch lands fees, any other leaves them. */
  lemma AfterUpdateIsLand(p: StakePool, clock: U64, total: U64, supply: U64)
    ensures FeeGrowth.PoolStep(p, AfterUpdate(p, clock).(totalLamports := total, poolTokenSupply := supply),
                               if p.lastUpdateEpoch < clock then FeeGrowth.Land else FeeGrowth.Other)
    ensures var q := AfterUpdate(p, clock);
      if p.lastUpdateEpoch < clock
      then q == FeeGrowth.LandFees(p).(lastUpdateEpoch := clock, lastEpochPoolTokenSupply := p.poolTokenSupply,
                                       lastEpochTotalLamports := p.totalLamports)
      else q == p
  {
  }

  lemma NothingDropped(v: Records, w: Records)
    requires EpochUpdate.ActiveStay(v, w) && forall i :: 0 <= i < |v| ==> v[i].status == Active
    ensures Kept(w) == w && Recorded(Dropped(w)) == 0
  {
    EpochUpdate.KeptAll(w);
    DroppedNone(w);
  }

  lemma NoRewardNoFee(p: StakePool)
    ensures p.CalcEpochFeeAmount(0) == Some(0)
  {
  }

  lemma AfterUpdateFees(p: StakePool, clock: U64, total: U64, supply: U64)
    ensures p.FeesBounded() ==> AfterUpdate(p, clock).(totalLamports := total, poolTokenSupply := supply).FeesBounded()
    ensures p.FeesBounded() ==> p.epochFee.AtMostOne()
  {
    if p.FeesBounded() { FeeGrowth.LandFeesKeepsFeesBounded(p); }
  }

  /** Nothing but the total and the supply changes. */
  ghost predicate OnlyAmounts(p: StakePool, q: StakePool) {
    q == p.(totalLamports := q.totalLamports, poolTokenSupply := q.poolTokenSupply)
  }

  lemma FeesStay(p: StakePool, supply: U64, total: U64)
    ensures var q := p.(poolTokenSupply := supply, totalLamports := total);
      q.FeesBounded() == p.FeesBounded() && OnlyAmounts(p, q)
  {
  }

  // ----------------------------------------------------- choosing a source

  predicate HasActive(v: Records, threshold: U64) {
    exists i :: 0 <= i < |v| && v[i].active > threshold
  }

  predicate HasTransient(v: Records, threshold: U64) {
    exists i :: 0 <= i < |v| && v[i].transient > threshold
  }

  /**
   Where a withdrawal of `full` lamports may come from: active stake first, then
   transient stake, and only when neither is available a whole validator account or
   the reserve; and from the preferred validator as long as that has enough.
   */
  predicate CanTake(v: Records, l: Ledger, source: Address, full: U64, required: U64, perToken: U64,
                    preferred: Option<nat>, minReserve: U64)
  {
    var threshold := SaturatingAdd(required, perToken);
    var active, pending := HasActive(v, threshold), HasTransient(v, threshold);
    if source == Reserve then
      !active && !pending && !At(l, Reserve).kind.Uninitialized? && Balance(l, Reserve) >= minReserve
    else
      var kind := At(l, source).kind;
      && kind.Delegated? && FindVote(v, kind.voter).Some?
      && var record := RecordOf(v, kind.voter);
      && record.status == Active
      && (preferred.Some? ==> FindVote(v, preferred.value).Some?)
      && (preferred.Some? && preferred.value != kind.voter ==> RecordOf(v, preferred.value).active <= threshold)
      && if active then
           && source == record.ValidatorAddress() && full <= record.active
           && SaturatingSub(Balance(l, source), full) >= required
         else if pending then
           && source == record.TransientAddress() && full <= record.transient
           && SaturatingSub(Balance(l, source), full) >= required
         else
           && source == record.ValidatorAddress() && Balance(l, source) == record.active
           && record.active <= full <= SaturatingAdd(record.active, perToken)
  }

  /** Such a withdrawal of `paid` lamports, and what becomes of the list. */
  ghost predicate Withdrawal(v: Records, w: Records, l: Ledger, source: Address, full: U64, paid: int, required: U64,
                             perToken: U64, preferred: Option<nat>, minReserve: U64)
  {
    var threshold := SaturatingAdd(required, perToken);
    && CanTake(v, l, source, full, required, perToken, preferred, minReserve)
    && if source == Reserve then paid == full && w == v
       else
         var vote := At(l, source).kind.voter;
         var record := RecordOf(v, vote);
         if HasActive(v, threshold) then
           paid == full && Replaced(v, w, vote, record.(active := record.active - paid))
         else if HasTransient(v, threshold) then
           paid == full && Replaced(v, w, vote, record.(transient := record.transient - paid))
         else
           paid == record.active && Replaced(v, w, vote, record.(active := 0, status := ReadyForRemoval))
  }

  /** The order of the sources, record by record. */
  lemma SourceOrder(v: Records, l: Ledger, source: Address, full: U64, required: U64, perToken: U64,
                    preferred: Option<nat>, minReserve: U64, i: nat)
    requires CanTake(v, l, source, full, required, perToken, preferred, minReserve) && i < |v| && required > 0
    ensures v[i].active > required + perToken ==> source.Validator?
    ensures v[i].transient > required + perToken ==> source.Validator? || source.Transient?
    ensures source.Transient? ==> exists j :: 0 <= j < |v| && v[j].transient > required + perToken
    ensures source.Validator? && full > Balance(l, source) ==>
      v[i].active <= required + perToken && v[i].transient <= required + perToken
  {
  }

  /** All of what is asked for, but no more than there is when a whole validator account is taken. */
  function PaidFrom(v: Records, l: Ledger, source: Address, full: U64, required: U64, perToken: U64): U64 {
    var threshold := SaturatingAdd(required, perToken);
    if source != Reserve && !HasActive(v, threshold) && !HasTransient(v, threshold) then Balance(l, source) else full
  }

  method TakeFrom(v: Records, l: Ledger, source: Address, full: U64, required: U64, perToken: U64,
                  preferred: Option<nat>, minReserve: U64)
    returns (r: Result<(U64, Records), StakePoolError>)
    ensures r.Ok? <==> CanTake(v, l, source, full, required, perToken, preferred, minReserve)
    ensures r.Ok? ==> r.value.0 == PaidFrom(v, l, source, full, required, perToken) <= full
    ensures r.Ok? ==> !source.External? && !At(l, source).kind.Uninitialized?
    ensures r.Ok? ==> Withdrawal(v, r.value.1, l, source, full, r.value.0, required, perToken, preferred, minReserve)
  {
    var threshold := SaturatingAdd(required, perToken);
    var kind := At(l, source).kind;
    if kind.Uninitialized? { return Err(WrongStakeStake); }
    var active, pending := HasActive(v, threshold), HasTransient(v, threshold);
    if source == Reserve {
      if pending || active { return Err(StakeLamportsNotEqualToMinimum); }
      if CheckedSub(Balance(l, source), minReserve).None? { return Err(StakeLamportsNotEqualToMinimum); }
      return Ok((full, v));
    }
    if !kind.Delegated? { return Err(WrongStakeStake); }
    var vote := kind.voter;
    if preferred.Some? {
      var first := FindVote(v, preferred.value);
      if first.None? { return Err(ValidatorNotFound); }
      var available := SaturatingSub(v[first.value].active, threshold);
      if preferred.value != vote && available > 0 { return Err(IncorrectWithdrawVoteAddress); }
    }
    var found := FindVote(v, vote);
    if found.None? { return Err(ValidatorNotFound); }
    var i := found.value;
    var record := v[i];
    var expected := if active || !pending then record.ValidatorAddress() else record.TransientAddress();
    if source != expected { return Err(InvalidStakeAccountAddress); }
    if record.status != Active { return Err(ValidatorNotFound); }
    if active || pending {
      if SaturatingSub(Balance(l, source), full) < required { return Err(StakeLamportsNotEqualToMinimum); }
      var left := CheckedSub(if active then record.active else record.transient, full);
      if left.None? { return Err(CalculationFailure); }
      var updated := if active then record.(active := left.value) else record.(transient := left.value);
      return Ok((full, v[i := updated]));
    }
    var whole := Balance(l, source);
    if full < whole || full > SaturatingAdd(whole, perToken) { return Err(StakeLamportsNotEqualToMinimum); }
    var left := CheckedSub(record.active, whole);
    if left.None? { return Err(CalculationFailure); }
    if left.value != 0 { return Err(StakeListAndPoolOutOfDate); }
    r := Ok((whole, v[i := record.(active := 0, status := ReadyForRemoval)]));
  }

  lemma WithdrawalShape(v: Records, w: Records, l: Ledger, source: Address, full: U64, paid: int, required: U64,
                        perToken: U64, preferred: Option<nat>, minReserve: U64, maxValidators: nat, bufferLength: nat)
    requires Withdrawal(v, w, l, source, full, paid, required, perToken, preferred, minReserve)
    ensures ListFits(v, maxValidators, bufferLength) ==> ListFits(w, maxValidators, bufferLength)
  {
    hide HasActive, HasTransient, ListFits;
    if source != Reserve {
      var i := FindVote(v, At(l, source).kind.voter).value;
      ReplacedFits(v, i, w[i], maxValidators, bufferLength);
    }
  }

  /** Whatever the source, the list, the accounts and the total move together. */
  lemma WithdrawalKeeps(p: StakePool, q: StakePool, l: Ledger, m: Ledger, v: Records, w: Records, source: Address,
                        target: Address, full: U64, paid: U64, required: U64, perToken: U64, preferred: Option<nat>,
                        min: U64)
    requires Sound(p, l, v, min) && target.External?
    requires Withdrawal(v, w, l, source, full, paid, required, perToken, preferred, min)
    requires Moved(l, m, source, target, paid) && q.totalLamports == p.totalLamports - paid
    ensures Sound(q, m, w, min) && |w| == |v|
  {
    if source == Reserve {
      MatchesKept(l, m, v);
    } else {
      hide Sound, Moved, HasActive, HasTransient;
      var i := FindVote(v, At(l, source).kind.voter).value;
      OneAccountKeeps(p, q, l, m, v, i, w[i], source, target, paid, min);
    }
  }

  /**
   The removal of a whole validator account compares its transient stake with a
   threshold, not with zero. The clean-up that follows drops exactly that
   stake from the books, so it keeps them if and only if there was none.
   */
  lemma RemovalStrandsTransientStake(v: Records, w: Records, l: Ledger, source: Address, full: U64, paid: int,
                                     required: U64, perToken: U64, preferred: Option<nat>, minReserve: U64)
    requires Withdrawal(v, w, l, source, full, paid, required, perToken, preferred, minReserve)
    requires source != Reserve && !HasActive(v, SaturatingAdd(required, perToken))
      && !HasTransient(v, SaturatingAdd(required, perToken))
    requires forall i :: 0 <= i < |v| ==> v[i].IsNotRemoved()
    ensures At(l, source).kind.Delegated? && FindVote(v, At(l, source).kind.voter).Some?
    ensures var stranded := RecordOf(v, At(l, source).kind.voter).transient;
      Recorded(Dropped(w)) == stranded && Recorded(Kept(w)) == Recorded(w) - stranded
  {
    var i := FindVote(v, At(l, source).kind.voter).value;
    DroppedOne(w, i);
    RecordedAppend([], w[i]);
    assert [] + [w[i]] == [w[i]];
    RecordedSplit(w);
  }

  /** The rent of a stake account's 200 bytes. */
  const STAKE_RENT: U64 := 2_282_880

  /** What the one validator of a small pool must keep, and a pool that can decrease it by the minimum. */
  const LEAST_STAKE: U64 := 3_282_880

  function SmallPool(): StakePool {
    var none := Fee(0, 0);
    StakePool(6_565_760, 6_565_760, 3, none, Nothing, None, None, none, none, Nothing, 0, none, 0, none, Nothing, 0, 0)
  }

  function SmallRecord(): ValidatorStakeInfo {
    ValidatorStakeInfo(LEAST_STAKE + MINIMUM_ACTIVE_STAKE, 0, 3, 0, 0, Active, 7)
  }

  function SmallAccounts(): Ledger {
    map[Reserve := StakeAccount(STAKE_RENT + STAKE_RENT, true, Initialized),
        Validator(7, 0) := StakeAccount(LEAST_STAKE + MINIMUM_ACTIVE_STAKE, true, Delegated(7, 0, EPOCH_MAX))]
  }

  /** The decrease by the minimum: rent from the reserve, the split, and the deactivation. */
  function Decreased(l: Ledger): Option<Ledger> {
    var funded := Withdraw(l, Reserve, Transient(7, 0), STAKE_RENT);
    if funded.None? then None
    else
      var split := Split(funded.value, Validator(7, 0), Transient(7, 0), MINIMUM_ACTIVE_STAKE);
      if split.None? then None else Deactivate(split.value, Transient(7, 0), 3)
  }

  function DecreasedRecord(): ValidatorStakeInfo {
    SmallRecord().(active := LEAST_STAKE, transient := LEAST_STAKE)
  }

  lemma SmallSound()
    ensures Sound(SmallPool(), SmallAccounts(), [SmallRecord()], STAKE_RENT)
  {
    var v := [SmallRecord()];
    NoStrayMatches(SmallAccounts(), v);
    RecordedAppend([], v[0]);
    assert [] + [v[0]] == v;
  }

  lemma SmallDecreases(l: Ledger)
    requires l == SmallAccounts()
    ensures Decreased(l).Some?
    ensures var m := Decreased(l).value;
      && BalancesExcept(l, m, {Reserve, Validator(7, 0), Transient(7, 0)})
      && Balance(m, Reserve) == STAKE_RENT
      && Balance(m, Validator(7, 0)) == Balance(m, Transient(7, 0)) == LEAST_STAKE
      && At(m, Validator(7, 0)).kind == Delegated(7, 0, EPOCH_MAX)
  {
  }

  lemma DecreasedSound(l: Ledger, m: Ledger)
    requires l == SmallAccounts() && BalancesExcept(l, m, {Reserve, Validator(7, 0), Transient(7, 0)})
    requires Balance(m, Reserve) == STAKE_RENT
    requires Balance(m, Validator(7, 0)) == Balance(m, Transient(7, 0)) == LEAST_STAKE
    ensures Sound(SmallPool(), m, [DecreasedRecord()], STAKE_RENT)
  {
    var v := [DecreasedRecord()];
    assert NoStray(m, v) by {
      forall a | Stray(v, a) ensures Balance(m, a) == 0 {
        assert a != v[0].ValidatorAddress() && a != v[0].TransientAddress();
        assert Balance(l, a) == 0;
      }
    }
    NoStrayMatches(m, v);
    RecordedAppend([], v[0]);
    assert [] + [v[0]] == v;
  }

  lemma SmallPrice()
    ensures var p := SmallPool();
      p.CalcLamportsWithdrawAmount(LEAST_STAKE) == Some(LEAST_STAKE) && p.GetLamportsPerPoolToken() == Some(1)
        && p.FeesBounded()
  {
  }

  lemma SmallWithdrawal(l: Ledger, w: Records)
    requires w == [DecreasedRecord().(active := 0, status := ReadyForRemoval)]
    requires Balance(l, Validator(7, 0)) == LEAST_STAKE && At(l, Validator(7, 0)).kind == Delegated(7, 0, EPOCH_MAX)
    ensures Withdrawal([DecreasedRecord()], w, l, Validator(7, 0), LEAST_STAKE, LEAST_STAKE, LEAST_STAKE, 1, None,
                       STAKE_RENT)
    ensures Recorded(Dropped(w)) == LEAST_STAKE
  {
    var v := [DecreasedRecord()];
    assert FindVote(v, 7) == Some(0) && w == v[0 := w[0]];
    RemovalStrandsTransientStake(v, w, l, Validator(7, 0), LEAST_STAKE, LEAST_STAKE, LEAST_STAKE, 1, None, STAKE_RENT);
  }

  /**
   It happens: from balanced books, the one validator of a pool is decreased by the
   minimum; the whole remainder is withdrawn at one lamport a token; the books still
   balance, and the clean-up then drops all of the transient stake.
   */
  lemma StrandingHappens() returns (p: StakePool, q: StakePool, u: Records, v: Records, w: Records,
                                    l0: Ledger, l: Ledger, m: Ledger)
    ensures p.FeesBounded() && Sound(p, l0, u, STAKE_RENT)
    ensures Decreased(l0) == Some(l) && FindVote(u, 7) == Some(0)
    ensures Replaced(u, v, 7, u[0].(active := LEAST_STAKE, transient := LEAST_STAKE))
    ensures Sound(p, l, v, STAKE_RENT) && LEAST_STAKE == SaturatingAdd(STAKE_RENT, MinimumDelegation(0))
    ensures p.CalcLamportsWithdrawAmount(LEAST_STAKE) == Some(LEAST_STAKE) && p.GetLamportsPerPoolToken() == Some(1)
    ensures SharePrice.WithdrawStep(p, q, LEAST_STAKE, LEAST_STAKE)
    ensures Withdrawal(v, w, l, Validator(7, 0), LEAST_STAKE, LEAST_STAKE, LEAST_STAKE, 1, None, STAKE_RENT)
    ensures Moved(l, m, Validator(7, 0), External(0), LEAST_STAKE) && Sound(q, m, w, STAKE_RENT)
    ensures Recorded(Dropped(w)) == LEAST_STAKE && !Sound(q, m, Kept(w), STAKE_RENT)
  {
    hide Sound, Withdrawal, Moved, SmallAccounts, StakePool.CalcLamportsWithdrawAmount, Decreased, BalancesExcept,
         StakePool.GetLamportsPerPoolToken, StakePool.FeesBounded, Kept, Dropped, Recorded;
    p, u, v, l0 := SmallPool(), [SmallRecord()], [DecreasedRecord()], SmallAccounts();
    SmallSound();
    SmallDecreases(l0);
    l := Decreased(l0).value;
    DecreasedSound(l0, l);
    SmallPrice();
    q := p.(totalLamports := LEAST_STAKE, poolTokenSupply := LEAST_STAKE);
    w := [DecreasedRecord().(active := 0, status := ReadyForRemoval)];
    SmallWithdrawal(l, w);
    BalanceOf(l0, l, External(0));
    m := Pay(l, Validator(7, 0), External(0), LEAST_STAKE).value;
    WithdrawalKeeps(p, q, l, m, v, w, Validator(7, 0), External(0), LEAST_STAKE, LEAST_STAKE, LEAST_STAKE, 1, None,
                    STAKE_RENT);
    DroppingUnbalances(q, m, w, STAKE_RENT);
  }

  lemma BalanceOf(l: Ledger, m: Ledger, a: Address)
    requires l == SmallAccounts() && a.External?
    requires BalancesExcept(l, m, {Reserve, Validator(7, 0), Transient(7, 0)})
    ensures Balance(m, a) == 0
  {
  }

  /** A pool whose lamports are all with its one validator, which has the minimum. */
  function StakedPool(): StakePool {
    SmallPool().(totalLamports := LEAST_STAKE, poolTokenSupply := LEAST_STAKE, lastUpdateEpoch := 4)
  }

  function StakedRecord(): ValidatorStakeInfo {
    ValidatorStakeInfo(LEAST_STAKE, 0, 4, 0, 0, Active, 7)
  }

  function StakedAccounts(deactivation: U64): Ledger {
    map[Reserve := StakeAccount(STAKE_RENT, true, Initialized),
        Validator(7, 0) := StakeAccount(LEAST_STAKE, true, Delegated(7, 3, deactivation))]
  }

  lemma StakedSound(r: ValidatorStakeInfo, deactivation: U64)
    requires r == StakedRecord().(status := r.status)
    ensures Sound(StakedPool(), StakedAccounts(deactivation), [r], STAKE_RENT)
  {
    var l, v := StakedAccounts(deactivation), [r];
    forall a | Stray(v, a) ensures Balance(l, a) == 0 {
      assert a != v[0].ValidatorAddress();
    }
    NoStrayMatches(l, v);
    RecordedAppend([], r);
    assert [] + [r] == v;
  }

  lemma StakedUpdate(r: ValidatorStakeInfo)
    requires r == StakedRecord().(status := DeactivatingValidator)
    ensures EpochUpdate.UpdateRecord(StakedAccounts(4), r, MINIMUM_ACTIVE_STAKE, STAKE_RENT, 4, false)
         == Ok((StakedAccounts(4), r.(active := 0)))
  {
    hide Merge, Withdraw;
  }

  /**
   How a pool comes to have tokens but no lamports: its one validator is removed, and
   the update of the same epoch records the cooling stake as zero. The next balance
   update then finds the reserve's minimum and nothing else.
   */
  lemma ZeroTotalArises() returns (p: StakePool, v: Records, u: Records, w: Records, l: Ledger, m: Ledger)
    ensures p.poolTokenSupply == p.totalLamports == 3_282_880 && Sound(p, l, v, STAKE_RENT)
    ensures p.lastUpdateEpoch == 4 && |v| == 1 && v[0].status == Active && v[0].lastUpdateEpoch == 4
    ensures Deactivate(l, v[0].ValidatorAddress(), 4) == Some(m)
    ensures u == [v[0].(status := DeactivatingValidator)] && Sound(p, m, u, STAKE_RENT)
    ensures EpochUpdate.UpdateSlice(m, u, 0, EpochUpdate.Pairs(u), _ => MINIMUM_ACTIVE_STAKE, STAKE_RENT, 4, false)
         == Ok((m, w))
    ensures Balance(m, Reserve) + Recorded(w) == STAKE_RENT
  {
    var r := StakedRecord().(status := DeactivatingValidator);
    p, v, u, w := StakedPool(), [StakedRecord()], [r], [r.(active := 0)];
    l, m := StakedAccounts(EPOCH_MAX), StakedAccounts(4);
    StakedSound(StakedRecord(), EPOCH_MAX);
    StakedSound(r, 4);
    assert Deactivate(l, Validator(7, 0), 4) == Some(m) by { assert l[Validator(7, 0) := m[Validator(7, 0)]] == m; }
    StakedUpdate(r);
    StakedSlice(m, u, w);
    RecordedAppend([], w[0]);
    assert [] + [w[0]] == w;
  }

  lemma StakedSlice(m: Ledger, u: Records, w: Records)
    requires |u| == |w| == 1
    requires EpochUpdate.UpdateRecord(m, u[0], MINIMUM_ACTIVE_STAKE, STAKE_RENT, 4, false) == Ok((m, w[0]))
    ensures EpochUpdate.UpdateSlice(m, u, 0, EpochUpdate.Pairs(u), _ => MINIMUM_ACTIVE_STAKE, STAKE_RENT, 4, false)
         == Ok((m, w))
  {
    hide EpochUpdate.UpdateRecord;
    var d: Address -> U64 := _ => MINIMUM_ACTIVE_STAKE;
    EpochUpdate.SliceUnfold(m, u, 0, 1, d, STAKE_RENT, 4, false);
    EpochUpdate.SliceEmpty(m, w, 1, d, STAKE_RENT, 4, false);
    assert u[0..1] == u && u[0 := w[0]] == w && w[1..1] == [];
  }

  /** From balanced books, a withdrawal of SOL into the reserve itself: it succeeds, and the books do not balance. */
  lemma ReserveTargetUnbalances(p: StakePool, q: StakePool, l: Ledger)
    requires p == SmallPool() && q == p.(totalLamports := 5_565_760, poolTokenSupply := 5_565_760)
    requires l == SmallAccounts()
    ensures Sound(p, l, [SmallRecord()], STAKE_RENT) && SharePrice.WithdrawStep(p, q, 1_000_000, 1_000_000)
    ensures SaturatingSub(Balance(l, Reserve), 1_000_000) >= STAKE_RENT
    ensures WithdrawTo(l, Reserve, Reserve, 1_000_000) == Some(l) && !Sound(q, l, [SmallRecord()], STAKE_RENT)
  {
    hide Sound, SmallRecord;
    SmallSound();
    SmallReserve(l);
    SmallQuote(p);
    hide SmallAccounts, SmallPool, Balance, WithdrawTo, StakePool.CalcLamportsWithdrawAmount;
    PaymentKeepsBooksIff(p, q, l, l, [SmallRecord()], Reserve, 1_000_000, STAKE_RENT);
  }

  lemma SmallReserve(l: Ledger)
    requires l == SmallAccounts()
    ensures Balance(l, Reserve) == STAKE_RENT + STAKE_RENT && WithdrawTo(l, Reserve, Reserve, 1_000_000) == Some(l)
  {
  }

  lemma SmallQuote(p: StakePool)
    requires p == SmallPool()
    ensures p.CalcLamportsWithdrawAmount(1_000_000) == Some(1_000_000)
    ensures p.totalLamports == p.poolTokenSupply == 6_565_760
  {
  }

  lemma DroppingUnbalances(p: StakePool, l: Ledger, v: Records, min: nat)
    requires Sound(p, l, v, min) && Recorded(Dropped(v)) > 0
    ensures !Sound(p, l, Kept(v), min)
  {
    RecordedSplit(v);
  }

  /** Where a stake deposit may go: to an active validator, the preferred one if there is one, in an updated pool. */
  predicate DepositTarget(p: StakePool, v: Records, l: Ledger, clock: U64, vote: nat) {
    && clock <= p.lastUpdateEpoch && p.preferredDeposit in {None, Some(vote)}
    && FindVote(v, vote).Some?
    && RecordOf(v, vote).status == Active && DelegatedTo(At(l, RecordOf(v, vote).ValidatorAddress()), vote)
  }

  method FindDepositTarget(p: StakePool, v: Records, l: Ledger, clock: U64, vote: nat)
    returns (r: Result<nat, StakePoolError>)
    ensures r.Ok? <==> DepositTarget(p, v, l, clock, vote)
    ensures r.Ok? ==> FindVote(v, vote) == Some(r.value)
    ensures r.Err? ==> r.error != CalculationFailure
  {
    if p.lastUpdateEpoch < clock { return Err(StakeListAndPoolOutOfDate); }
    if p.preferredDeposit.Some? && p.preferredDeposit.value != vote { return Err(IncorrectDepositVoteAddress); }
    var found := FindVote(v, vote);
    if found.None? { return Err(ValidatorNotFound); }
    var record := v[found.value];
    if !DelegatedTo(At(l, record.ValidatorAddress()), vote) { return Err(WrongStakeStake); }
    if record.status != Active { return Err(ValidatorNotFound); }
    r := Ok(found.value);
  }

  predicate CanTakeDeposit(l: Ledger, deposit: Address, stake: Address, absorbed: U64) {
    && !At(l, deposit).kind.Uninitialized? && !At(l, stake).kind.Uninitialized?
    && Balance(l, stake) + Balance(l, deposit) <= U64_MAX
    && absorbed <= Balance(l, deposit) && Balance(l, Reserve) + Balance(l, deposit) - absorbed <= U64_MAX
  }

  /** The deposited account merges into the validator's; what the delegation did not absorb goes on to the reserve. */
  method TakeDeposit(accounts: Ledger, deposit: Address, stake: Address, absorbed: U64)
    returns (r: Result<Ledger, StakePoolError>)
    requires deposit.External? && stake.Validator?
    ensures r.Ok? <==> CanTakeDeposit(accounts, deposit, stake, absorbed)
    ensures r.Ok? ==> absorbed <= Balance(accounts, deposit) && Taken(accounts, r.value, stake, deposit, absorbed)
    ensures r == Err(CalculationFailure) ==> absorbed > Balance(accounts, deposit)
  {
    hide Merge, Withdraw, Pay;
    var merged := Merge(accounts, deposit, stake);
    if merged.None? { return Err(StakeProgramRefused); }
    var lamports := Balance(merged.value, stake) - Balance(accounts, stake);
    var fromSol := CheckedSub(lamports, absorbed);
    if fromSol.None? { return Err(CalculationFailure); }
    if fromSol.value == 0 { return Ok(merged.value); }
    var withdrawn := Withdraw(merged.value, stake, Reserve, fromSol.value);
    r := if withdrawn.None? then Err(StakeProgramRefused) else Ok(withdrawn.value);
  }

  /** The checks of a withdrawal of pool tokens of which `fee` are charged. */
  predicate CanQuoteWithdrawal(p: StakePool, fee: Option<U64>, poolTokens: U64, minimumOut: Option<U64>) {
    && fee.Some? && fee.value <= poolTokens
    && var lamports := p.CalcLamportsWithdrawAmount(poolTokens - fee.value);
       lamports.Some? && lamports.value > 0 && (minimumOut.Some? ==> lamports.value >= minimumOut.value)
  }

  /** The conversion and checks of a withdrawal of pool tokens: the fee, and the lamports the rest is worth. */
  method QuoteWithdrawal(p: StakePool, fee: Option<U64>, poolTokens: U64, minimumOut: Option<U64>)
    returns (r: Result<(U64, U64), StakePoolError>)
    ensures r.Ok? <==> CanQuoteWithdrawal(p, fee, poolTokens, minimumOut)
    ensures r.Ok? ==>
      var (charged, lamports) := r.value;
      && fee == Some(charged) && charged <= poolTokens && lamports > 0
      && p.CalcLamportsWithdrawAmount(poolTokens - charged) == Some(lamports)
  {
    if fee.None? || CheckedSub(poolTokens, fee.value).None? { return Err(CalculationFailure); }
    var lamports := p.CalcLamportsWithdrawAmount(poolTokens - fee.value);
    if lamports.None? { return Err(CalculationFailure); }
    if lamports.value == 0 { return Err(WithdrawalTooSmall); }
    if minimumOut.Some? && lamports.value < minimumOut.value { return Err(ExceededSlippage); }
    r := Ok((fee.value, lamports.value));
  }

  /** A deposit that does not fit: the conversion, the new total or the new supply overflows. */
  predicate DepositOverflows(p: StakePool, lamports: U64) {
    var minted := p.CalcPoolTokensForDeposit(lamports);
    minted.None? || p.totalLamports + lamports > U64_MAX || p.poolTokenSupply + minted.value > U64_MAX
  }

  /** How the tokens for deposited SOL are split. */
  function SolSplit(p: StakePool, lamports: U64): Option<SharePrice.DepositSplit> {
    var minted := p.CalcPoolTokensForDeposit(lamports);
    if minted.None? then None else SharePrice.SolDepositSplit(p, minted.value)
  }

  predicate CanQuoteSol(p: StakePool, lamports: U64, minimumOut: Option<U64>) {
    var split := SolSplit(p, lamports);
    && split.Some? && split.value.user > 0 && (minimumOut.Some? ==> split.value.user >= minimumOut.value)
    && !DepositOverflows(p, lamports)
  }

  /** The conversion and checks of a SOL deposit, and the pool after it. */
  method QuoteSolDeposit(p: StakePool, lamports: U64, minimumOut: Option<U64>)
    returns (r: Result<(SharePrice.DepositSplit, StakePool), StakePoolError>)
    ensures r.Ok? <==> CanQuoteSol(p, lamports, minimumOut)
    ensures r.Ok? ==>
      var (split, q) := r.value;
      && SolSplit(p, lamports) == Some(split)
      && (p.FeesBounded() ==> split.user + split.manager + split.referral == split.minted)
      && SharePrice.DepositStep(p, q, lamports, split.minted) && OnlyAmounts(p, q)
      && q.FeesBounded() == p.FeesBounded() && q.poolTokenSupply == p.poolTokenSupply + split.minted
      && q.totalLamports == p.totalLamports + lamports && q.lastUpdateEpoch == p.lastUpdateEpoch
    ensures r == Err(CalculationFailure) && p.FeesBounded() ==> DepositOverflows(p, lamports)
  {
    var minted := p.CalcPoolTokensForDeposit(lamports);
    if minted.None? { return Err(CalculationFailure); }
    if p.FeesBounded() { SharePrice.SolDepositSplitTotal(p, minted.value); }
    var split := SharePrice.SolDepositSplit(p, minted.value);
    if split.None? { return Err(CalculationFailure); }
    if split.value.user == 0 { return Err(DepositTooSmall); }
    if minimumOut.Some? && split.value.user < minimumOut.value { return Err(ExceededSlippage); }
    var supply, total := CheckedAdd(p.poolTokenSupply, minted.value), CheckedAdd(p.totalLamports, lamports);
    if supply.None? || total.None? { return Err(CalculationFailure); }
    FeesStay(p, supply.value, total.value);
    r := Ok((split.value, p.(poolTokenSupply := supply.value, totalLamports := total.value)));
  }

  predicate CanQuote(p: StakePool, lamports: U64, absorbed: U64, minimumOut: Option<U64>) {
    var split := StakeSplit(p, lamports, absorbed);
    && split.Some? && split.value.user > 0 && (minimumOut.Some? ==> split.value.user >= minimumOut.value)
    && !DepositOverflows(p, lamports)
  }

  /** How the tokens for a deposited stake account are split; `absorbed` of its lamports are delegated. */
  function StakeSplit(p: StakePool, lamports: U64, absorbed: U64): Option<SharePrice.DepositSplit> {
    var minted, fromStake := p.CalcPoolTokensForDeposit(lamports), p.CalcPoolTokensForDeposit(absorbed);
    if minted.None? || fromStake.None? then None
    else SharePrice.StakeDepositSplit(p, minted.value, fromStake.value)
  }

  /** The conversions and checks of a stake deposit, and the pool after it. */
  method QuoteStakeDeposit(p: StakePool, lamports: U64, absorbed: U64, minimumOut: Option<U64>)
    returns (r: Result<(SharePrice.DepositSplit, StakePool), StakePoolError>)
    requires absorbed <= lamports
    ensures r.Ok? <==> CanQuote(p, lamports, absorbed, minimumOut)
    ensures r.Ok? ==>
      var (split, q) := r.value;
      var minted := split.minted;
      && StakeSplit(p, lamports, absorbed) == Some(split)
      && (p.FeesBounded() ==> split.user + split.manager + split.referral == minted)
      && SharePrice.DepositStep(p, q, lamports, minted) && OnlyAmounts(p, q)
      && q.FeesBounded() == p.FeesBounded() && q.poolTokenSupply == p.poolTokenSupply + minted
      && q.totalLamports == p.totalLamports + lamports && q.lastUpdateEpoch == p.lastUpdateEpoch
    ensures r == Err(CalculationFailure) && p.FeesBounded() ==> DepositOverflows(p, lamports)
  {
    var minted, fromStake := p.CalcPoolTokensForDeposit(lamports), p.CalcPoolTokensForDeposit(absorbed);
    if minted.Some? && p.FeesBounded() { SharePrice.StakeDepositSplitTotal(p, lamports, absorbed); }
    if minted.None? || fromStake.None? { return Err(CalculationFailure); }
    var split := SharePrice.StakeDepositSplit(p, minted.value, fromStake.value);
    if split.None? { return Err(CalculationFailure); }
    if split.value.user == 0 { return Err(DepositTooSmall); }
    if minimumOut.Some? && split.value.user < minimumOut.value { return Err(ExceededSlippage); }
    var supply, total := CheckedAdd(p.poolTokenSupply, minted.value), CheckedAdd(p.totalLamports, lamports);
    if supply.None? || total.None? { return Err(CalculationFailure); }
    FeesStay(p, supply.value, total.value);
    r := Ok((split.value, p.(poolTokenSupply := supply.value, totalLamports := total.value)));
  }
}
