/**
 Whole runs of programs/albus-stake-pool/src/processor.rs: any instructions in any
 order, under any clocks, with anything happening to the accounts in between.
 */
module Runs {
  import opened Wrappers
  import opened StakeState
  import opened StakeProgram
  import opened ValidatorLists
  import opened Books
  import opened Processor
  import SharePrice
  import FeeGrowth
  import EpochUpdate

  datatype Instruction =
    | Increase(vote: nat, lamports: U64, seed: U64, ephemeral: Option<U64>)
    | Decrease(vote: nat, lamports: U64, seed: U64, ephemeral: Option<U64>, fund: bool)
    | MoveStake(voteFrom: nat, voteTo: nat, lamports: U64, sourceSeed: U64, ephemeralSeed: U64, destinationSeed: U64)
    | Add(vote: nat, validatorSeed: nat)
    | Remove(vote: nat)
    | Prefer(forDeposit: bool, preferred: Option<nat>)
    | SetFee(fee: FeeType)
    | DepositLamports(wallet: nat, lamports: U64, least: Option<U64>, user: nat, referrer: nat)
    | DepositAccount(vote: nat, account: nat, absorbed: U64, least: Option<U64>, user: nat, referrer: nat)
    | WithdrawLamports(target: Address, amount: U64, least: Option<U64>, from: nat, feeInfoValid: bool)
    | WithdrawAccount(source: Address, wallet: nat, amount: U64, least: Option<U64>, from: nat, feeInfoValid: bool)
    | UpdateList(start: nat, stakes: seq<Address>, delegated: Address -> U64, noMerge: bool)
    | UpdateBalance(feeInfoValid: bool)
    | Cleanup

  /**
   An instruction at some epoch; a change of the accounts from outside, such as
   rewards, transfers or other programs; or what holders of pool tokens do with
   them at the token program.
   */
  datatype Event =
    | Call(clock: U64, instruction: Instruction)
    | Outside(accounts: Ledger)
    | HolderBurns(holder: nat, amount: U64)
    | HolderSends(holder: nat, receiver: nat, amount: U64)

  /** What stays the same over the life of a pool. */
  datatype Terms = Terms(maxValidators: nat, listDataLength: nat, stakeRent: U64, minReserve: U64)

  function TermsOf(s: StakePoolProgram): Terms {
    Terms(s.maxValidators, s.listDataLength, s.stakeRent, s.MinReserve())
  }

  datatype Snapshot = Snapshot(pool: StakePool, validators: Records, accounts: Ledger, mintSupply: U64, tokens: Tokens)

  function StateOf(s: StakePoolProgram): Snapshot
    reads s
  {
    Snapshot(s.pool, s.validators, s.accounts, s.mintSupply, s.tokens)
  }

  ghost predicate Shape(c: Terms, s: Snapshot) {
    ListFits(s.validators, c.maxValidators, c.listDataLength)
  }

  ghost predicate TokensFit(s: Snapshot) {
    TokensAgree(s.pool, s.mintSupply, s.tokens)
  }

  ghost predicate Balanced(c: Terms, s: Snapshot) {
    Sound(s.pool, s.accounts, s.validators, c.minReserve) && Shape(c, s) && TokensFit(s)
  }

  /** Nothing but users' own accounts changes. */
  ghost predicate OnlyUsersAccounts(l: Ledger, m: Ledger) {
    forall a: Address :: !a.External? ==> Balance(m, a) == Balance(l, a)
  }

  /**
   The events that keep balanced books balanced: all but an update step that misses
   lamports, a clean-up that drops some, a withdrawal paid into one of the pool's own
   accounts, and any other change of these.
   */
  ghost predicate Harmless(c: Terms, e: Event, s: Snapshot) {
    match e
    case Call(clock, UpdateList(start, stakes, delegated, noMerge)) =>
      |stakes| % 2 == 0 && start + |stakes| / 2 <= |s.validators| ==>
        EpochUpdate.SliceMissing(s.accounts, s.validators, start, stakes, delegated, c.stakeRent, clock, noMerge) == 0
    case Call(_, Cleanup) => Recorded(Dropped(s.validators)) == 0
    case Call(_, WithdrawLamports(target, _, _, _, _)) => target.External?
    case Call(_, _) => true
    case HolderBurns(_, _) | HolderSends(_, _, _) => true
    case Outside(l) => OnlyUsersAccounts(s.accounts, l)
  }

  /** The one event that can lower the total without burning tokens. */
  predicate Loss(e: Event, p: StakePool, q: StakePool) {
    e.Call? && e.instruction.UpdateBalance? && q.totalLamports < p.totalLamports
  }

  /** What an event is to the fees: a change set, fees landing on a new epoch, or nothing. */
  function OpOf(e: Event, p: StakePool, q: StakePool): FeeGrowth.FeeOp {
    if e.Call? && e.instruction.SetFee? && FeeGrowth.SetFee(p, e.clock, e.instruction.fee).Ok?
    then FeeGrowth.Set(e.clock, e.instruction.fee)
    else if p.lastUpdateEpoch < q.lastUpdateEpoch then FeeGrowth.Land
    else FeeGrowth.Other
  }

  /** The state after an update step for part of the list; one that fails changes nothing. */
  ghost function AfterStep(c: Terms, s: Snapshot, clock: U64, start: nat, stakes: seq<Address>,
                           delegated: Address -> U64, noMerge: bool): Snapshot
  {
    if |stakes| % 2 != 0 || start + |stakes| / 2 > |s.validators| then s
    else
      match EpochUpdate.UpdateSlice(s.accounts, s.validators, start, stakes, delegated, c.stakeRent, clock, noMerge)
      case Ok(updated) => s.(accounts := updated.0, validators := updated.1)
      case Err(_) => s
  }

  /** What the token program does for a holder; it refuses more than the holder has. */
  function AfterBurn(s: Snapshot, holder: nat, amount: U64): Snapshot {
    var left := Burn(s.tokens, holder, amount);
    if left.None? || amount > s.mintSupply then s else s.(tokens := left.value, mintSupply := s.mintSupply - amount)
  }

  function AfterSend(s: Snapshot, holder: nat, receiver: nat, amount: U64): Snapshot {
    var moved := Transfer(s.tokens, holder, receiver, amount);
    if moved.None? then s else s.(tokens := moved.value)
  }

  /** Tokens of the recorded supply that the mint no longer counts. */
  function Gap(s: Snapshot): int {
    s.pool.poolTokenSupply - s.mintSupply
  }

  /** Tokens an event burns without the pool. */
  function BurntOutside(e: Event, s: Snapshot): nat {
    if e.HolderBurns? && AfterBurn(s, e.holder, e.amount) != s then e.amount else 0
  }

  /** The recorded supply lags behind by the tokens burnt outside, until a balance update reads it again. */
  ghost predicate SupplyFollows(e: Event, s: Snapshot, t: Snapshot) {
    if e.Call? && e.instruction.UpdateBalance? then t == s || Gap(t) == 0 else Gap(t) == Gap(s) + BurntOutside(e, s)
  }

  /** The events that are not an instruction's, and those that can unbalance the books, do exactly this. */
  ghost predicate Exact(c: Terms, e: Event, s: Snapshot, t: Snapshot) {
    match e
    case Call(clock, UpdateList(start, stakes, delegated, noMerge)) =>
      t == AfterStep(c, s, clock, start, stakes, delegated, noMerge)
    case Call(_, Cleanup) => t == s.(validators := Kept(s.validators))
    case Call(_, _) => true
    case Outside(l) => t == s.(accounts := l)
    case HolderBurns(holder, amount) => t == AfterBurn(s, holder, amount)
    case HolderSends(holder, receiver, amount) => t == AfterSend(s, holder, receiver, amount)
  }

  /** What an event may do to the state. */
  ghost predicate Follows(c: Terms, e: Event, s: Snapshot, t: Snapshot) {
    && (Shape(c, s) ==> Shape(c, t))
    && (TokensFit(s) ==> TokensFit(t))
    && (Balanced(c, s) && Harmless(c, e, s) ==> Balanced(c, t))
    && Orderly(e, TokensFit(s), s.pool, t.pool)
    && SupplyFollows(e, s, t)
    && Exact(c, e, s, t)
  }

  /** From the outside, the books stay balanced if and only if the pool's accounts keep their lamports. */
  lemma OutsideKeepsBooksIff(p: StakePool, l: Ledger, m: Ledger, v: Records, min: nat)
    requires Sound(p, l, v, min)
    ensures Sound(p, m, v, min) <==> OnlyUsersAccounts(l, m)
  {
    if OnlyUsersAccounts(l, m) { MatchesKept(l, m, v); }
    if Sound(p, m, v, min) { MatchesFixBalances(l, m, v); }
  }

  lemma QuietFees(e: Event, p: StakePool, q: StakePool)
    requires FeeGrowth.StakeTrack(p) == FeeGrowth.StakeTrack(q) && FeeGrowth.SolTrack(p) == FeeGrowth.SolTrack(q)
    requires p.lastUpdateEpoch == q.lastUpdateEpoch
    requires e.Call? && e.instruction.SetFee? ==> FeeGrowth.SetFee(p, e.clock, e.instruction.fee).Err?
    ensures FeeGrowth.PoolStep(p, q, OpOf(e, p, q))
  {
    hide FeeGrowth.SetFee;
  }

  /** What every instruction does to the pool: no loss for the holders, and fees by the rules. */
  ghost predicate Orderly(e: Event, sound: bool, p: StakePool, q: StakePool) {
    && (sound && !Loss(e, p, q) ==> SharePrice.Step(p, q))
    && FeeGrowth.PoolStep(p, q, OpOf(e, p, q))
    && p.lastUpdateEpoch <= q.lastUpdateEpoch
  }

  twostate lemma PoolKept(s: StakePoolProgram)
    requires s.Unchanged() || s.PoolAndTokensKept()
    ensures s.pool == old(s.pool) && s.GapKept()
    ensures s.Unchanged() ==> s.Inv() == old(s.Inv())
  {
  }

  lemma StillOrderly(e: Event, sound: bool, p: StakePool)
    requires e.Call? && e.instruction.SetFee? ==> FeeGrowth.SetFee(p, e.clock, e.instruction.fee).Err?
    ensures Orderly(e, sound, p, p)
  {
    QuietFees(e, p, p);
    SharePrice.StillStep(p, p);
  }

  lemma PreferencesOrderly(e: Event, sound: bool, p: StakePool, q: StakePool)
    requires e.Call? && !e.instruction.SetFee?
    requires q == p.(preferredDeposit := q.preferredDeposit, preferredWithdraw := q.preferredWithdraw)
    ensures Orderly(e, sound, p, q)
  {
    QuietFees(e, p, q);
    SharePrice.StillStep(p, q);
  }

  lemma AmountsOrderly(e: Event, sound: bool, p: StakePool, q: StakePool)
    requires e.Call? && !e.instruction.SetFee? && OnlyAmounts(p, q) && SharePrice.Step(p, q)
    ensures Orderly(e, sound, p, q)
  {
    QuietFees(e, p, q);
  }

  lemma FeeOrderly(e: Event, sound: bool, p: StakePool, q: StakePool)
    requires e.Call? && e.instruction.SetFee? && FeeGrowth.SetFee(p, e.clock, e.instruction.fee) == Ok(q)
    ensures Orderly(e, sound, p, q)
  {
    hide FeeGrowth.SetFee;
    FeeGrowth.SetFeeKeepsAmounts(p, e.clock, e.instruction.fee);
    SharePrice.StillStep(p, q);
  }

  lemma UpdateOrderly(e: Event, sound: bool, p: StakePool, q: StakePool, fee: nat)
    requires e.Call? && e.instruction.UpdateBalance? && fee <= U64_MAX
    requires q == AfterUpdate(p, e.clock).(totalLamports := q.totalLamports, poolTokenSupply := q.poolTokenSupply)
    requires sound && p.totalLamports <= q.totalLamports ==> SharePrice.UpdateStep(p, q, fee)
    ensures Orderly(e, sound, p, q)
  {
    AfterUpdateIsLand(p, e.clock, q.totalLamports, q.poolTokenSupply);
  }

  /** When an instruction succeeds. */
  ghost predicate Accepted(s: StakePoolProgram, clock: U64, x: Instruction)
    reads s
  {
    match x
    case Increase(vote, lamports, seed, ephemeral) => s.Increasable(clock, vote, lamports, seed, ephemeral)
    case Decrease(vote, lamports, seed, ephemeral, fund) => s.Decreasable(clock, vote, lamports, seed, ephemeral, fund)
    case MoveStake(voteFrom, voteTo, lamports, source, ephemeral, destination) =>
      s.Redelegable(clock, voteFrom, voteTo, lamports, source, ephemeral, destination)
    case Add(vote, seed) => s.Addable(clock, vote, seed)
    case Remove(vote) => s.Removable(clock, vote)
    case Prefer(_, vote) =>
      vote.Some? ==> FindVote(s.validators, vote.value).Some? && RecordOf(s.validators, vote.value).status == Active
    case SetFee(fee) => FeeGrowth.SetFee(s.pool, clock, fee).Ok?
    case DepositLamports(wallet, lamports, least, user, referrer) =>
      s.SolDepositable(clock, wallet, lamports, least, user, referrer)
    case DepositAccount(vote, account, absorbed, least, user, referrer) =>
      s.StakeDepositable(clock, vote, account, absorbed, least, user, referrer)
    case WithdrawLamports(target, amount, least, from, valid) =>
      s.SolWithdrawable(clock, target, amount, least, from, valid)
    case WithdrawAccount(source, wallet, amount, least, from, valid) =>
      s.StakeWithdrawable(clock, source, wallet, amount, least, from, valid)
    case UpdateList(start, stakes, delegated, noMerge) =>
      && |stakes| % 2 == 0 && start + |stakes| / 2 <= |s.validators|
      && EpochUpdate.UpdateSlice(s.accounts, s.validators, start, stakes, delegated, s.stakeRent, clock, noMerge).Ok?
    case UpdateBalance(valid) => s.Updatable(clock, valid)
    case Cleanup => true
  }

  /** What an instruction that succeeded has done. */
  twostate predicate Performed(s: StakePoolProgram, clock: U64, x: Instruction)
    reads s
  {
    match x
    case Increase(vote, lamports, seed, ephemeral) => s.Increased(clock, vote, lamports, seed, ephemeral)
    case Decrease(vote, lamports, seed, ephemeral, _) => s.Decreased(clock, vote, lamports, seed, ephemeral)
    case MoveStake(voteFrom, voteTo, lamports, source, ephemeral, destination) =>
      s.StakeMoved(clock, voteFrom, voteTo, lamports, source, ephemeral, destination)
    case Add(vote, seed) => s.Added(clock, vote, seed)
    case Remove(vote) => s.Removed(clock, vote)
    case Prefer(forDeposit, vote) =>
      StateOf(s) == old(StateOf(s)).(pool := if forDeposit then old(s.pool).(preferredDeposit := vote)
                                             else old(s.pool).(preferredWithdraw := vote))
    case SetFee(fee) =>
      FeeGrowth.SetFee(old(s.pool), clock, fee) == Ok(s.pool) && StateOf(s) == old(StateOf(s)).(pool := s.pool)
    case DepositLamports(wallet, lamports, _, user, referrer) => s.SolDeposited(wallet, lamports, user, referrer)
    case DepositAccount(vote, account, absorbed, _, user, referrer) =>
      s.StakeDeposited(vote, account, absorbed, user, referrer)
    case WithdrawLamports(target, amount, _, from, valid) => s.SolWithdrawn(target, amount, from, valid)
    case WithdrawAccount(source, wallet, amount, _, from, valid) =>
      s.StakeWithdrawn(source, wallet, amount, from, valid)
    case UpdateList(_, _, _, _) | Cleanup => Exact(TermsOf(s), Call(clock, x), old(StateOf(s)), StateOf(s))
    case UpdateBalance(valid) => s.BalanceUpdated(clock, valid)
  }

  /** Instructions that move stake or mark validators. */
  method ProcessStake(s: StakePoolProgram, clock: U64, x: Instruction) returns (r: Result<(), StakePoolError>)
    requires x.Increase? || x.Decrease? || x.MoveStake? || x.Add? || x.Remove? || x.Prefer?
    modifies s
    ensures r.Err? ==> s.Unchanged()
    ensures (r.Ok? <==> old(Accepted(s, clock, x))) && (r.Ok? ==> Performed(s, clock, x))
    ensures s.ShapeKept() && s.GapKept() && (old(s.Inv()) ==> s.Inv())
    ensures Orderly(Call(clock, x), old(s.TokensSound()), old(s.pool), s.pool)
  {
    hide StakePoolProgram.Inv, StakePoolProgram.ShapeKept, StakePoolProgram.GapKept, StakePoolProgram.PoolAndTokensKept,
         StakePoolProgram.TokensSound, Orderly, FindVote, RecordOf, Released, BalancesExcept, OnlyAmounts,
         SharePrice.Step, StakePoolProgram.Increasable, StakePoolProgram.Increased, StakePoolProgram.Decreasable,
         StakePoolProgram.Decreased, StakePoolProgram.Redelegable, StakePoolProgram.StakeMoved,
         StakePoolProgram.Addable, StakePoolProgram.Added, StakePoolProgram.Removable, StakePoolProgram.Removed;
    ghost var before, sound := s.pool, s.TokensSound();
    match x {
    case Increase(vote, lamports, seed, ephemeral) =>
      r := s.IncreaseValidatorStake(clock, vote, lamports, seed, ephemeral);
    case Decrease(vote, lamports, seed, ephemeral, fund) =>
      r := s.DecreaseValidatorStake(clock, vote, lamports, seed, ephemeral, fund);
    case MoveStake(from, to, lamports, source, ephemeral, destination) =>
      r := s.RedelegateStake(clock, from, to, lamports, source, ephemeral, destination);
    case Add(vote, seed) => r := s.AddValidator(clock, vote, seed);
    case Remove(vote) => r := s.RemoveValidator(clock, vote);
    case Prefer(forDeposit, vote) => r := s.SetPreferredValidator(forDeposit, vote);
    }
    if r.Err? || !(x.Remove? || x.Prefer?) { PoolKept(s); }
    PreferencesOrderly(Call(clock, x), sound, before, s.pool);
  }

  /** Deposits and withdrawals. */
  method ProcessFlow(s: StakePoolProgram, clock: U64, x: Instruction) returns (r: Result<(), StakePoolError>)
    requires x.DepositLamports? || x.DepositAccount? || x.WithdrawLamports? || x.WithdrawAccount?
    modifies s
    ensures r.Err? ==> s.Unchanged()
    ensures (r.Ok? <==> old(Accepted(s, clock, x))) && (r.Ok? ==> Performed(s, clock, x))
    ensures s.ShapeKept() && s.GapKept()
    ensures old(s.Inv()) ==> (s.Inv() <==> (r.Ok? && x.WithdrawLamports? ==> x.target.External?))
    ensures Orderly(Call(clock, x), old(s.TokensSound()), old(s.pool), s.pool)
  {
    hide StakePoolProgram.Inv, StakePoolProgram.ShapeKept, StakePoolProgram.GapKept, StakePoolProgram.PoolAndTokensKept,
         StakePoolProgram.TokensSound, Orderly, FindVote, RecordOf, Released, BalancesExcept, OnlyAmounts,
         SharePrice.Step, StakePoolProgram.SolDepositable, StakePoolProgram.SolDeposited,
         StakePoolProgram.StakeDepositable, StakePoolProgram.StakeDeposited, StakePoolProgram.SolWithdrawable,
         StakePoolProgram.SolWithdrawn, StakePoolProgram.StakeWithdrawable, StakePoolProgram.StakeWithdrawn;
    ghost var before, sound := s.pool, s.TokensSound();
    match x {
    case DepositLamports(wallet, lamports, least, user, referrer) =>
      r := s.DepositSol(clock, wallet, lamports, least, user, referrer);
    case DepositAccount(vote, account, absorbed, least, user, referrer) =>
      r := s.DepositStake(clock, vote, account, absorbed, least, user, referrer);
    case WithdrawLamports(target, amount, least, from, feeInfoValid) =>
      r := s.WithdrawSol(clock, target, amount, least, from, feeInfoValid);
    case WithdrawAccount(source, wallet, amount, least, from, feeInfoValid) =>
      r := s.WithdrawStake(clock, source, wallet, amount, least, from, feeInfoValid);
    }
    if r.Err? {
      PoolKept(s);
      StillOrderly(Call(clock, x), sound, before);
    } else {
      AmountsOrderly(Call(clock, x), sound, before, s.pool);
    }
  }

  /** Update steps, balance updates, clean-up and fee changes. */
  method ProcessUpdate(s: StakePoolProgram, clock: U64, x: Instruction) returns (r: Result<(), StakePoolError>)
    requires x.UpdateList? || x.UpdateBalance? || x.Cleanup? || x.SetFee?
    modifies s
    ensures r.Err? ==> s.Unchanged()
    ensures (r.Ok? <==> old(Accepted(s, clock, x))) && (r.Ok? ==> Performed(s, clock, x))
    ensures s.ShapeKept() && (if x.UpdateBalance? then r.Ok? ==> s.SupplyGap() == 0 else s.GapKept())
    ensures old(s.Inv()) ==> (s.Inv() <==> (r.Ok? ==> old(Harmless(TermsOf(s), Call(clock, x), StateOf(s)))))
    ensures Orderly(Call(clock, x), old(s.TokensSound()), old(s.pool), s.pool)
    ensures Exact(TermsOf(s), Call(clock, x), old(StateOf(s)), StateOf(s))
  {
    hide StakePoolProgram.Inv, StakePoolProgram.TokensSound, StakePoolProgram.ListShape, StakePoolProgram.MinReserve,
         Sound, StakePoolProgram.Stale, Matches, DistinctVotes, Drift, Orderly, AfterUpdate, Kept, Dropped, Recorded,
         EpochUpdate.UpdateSlice, EpochUpdate.SliceMissing, EpochUpdate.SameIdentities, SharePrice.Step,
         SharePrice.UpdateStep, StakePool.CalcEpochFeeAmount, FeeGrowth.SetFee, StakePoolProgram.ShapeKept,
         OnlyUsersAccounts;
    ghost var before, sound := s.pool, s.TokensSound();
    match x {
    case UpdateList(start, stakes, delegated, noMerge) =>
      r := s.UpdateValidatorListBalance(clock, start, stakes, delegated, noMerge);
      StillOrderly(Call(clock, x), sound, before);
    case UpdateBalance(feeInfoValid) =>
      ghost var minted := s.mintSupply;
      r := s.UpdateStakePoolBalance(clock, feeInfoValid);
      if r.Ok? { UpdateOrderly(Call(clock, x), sound, before, s.pool, s.mintSupply - minted); }
      else { StillOrderly(Call(clock, x), sound, before); }
    case Cleanup =>
      s.CleanupRemovedValidatorEntries();
      r := Ok(());
      StillOrderly(Call(clock, x), sound, before);
    case SetFee(fee) =>
      r := s.ChangeFee(clock, fee);
      if r.Ok? {
        FeeOrderly(Call(clock, x), sound, before, s.pool);
      } else {
        StillOrderly(Call(clock, x), sound, before);
      }
    }
    if r.Err? { PoolKept(s); }
  }

  lemma StateIs(s: StakePoolProgram)
    ensures s.Inv() <==> Balanced(TermsOf(s), StateOf(s))
    ensures s.ListShape() <==> Shape(TermsOf(s), StateOf(s))
    ensures s.TokensSound() <==> TokensFit(StateOf(s))
    ensures s.Inv() ==> s.TokensSound()
    ensures s.SupplyGap() == Gap(StateOf(s))
  {
    hide Sound, ListFits, TokensAgree;
  }

  /** One instruction: what `process` dispatches on. */
  method Process(s: StakePoolProgram, clock: U64, x: Instruction) returns (r: Result<(), StakePoolError>)
    modifies s
    ensures r.Err? ==> s.Unchanged()
    ensures (r.Ok? <==> old(Accepted(s, clock, x))) && (r.Ok? ==> Performed(s, clock, x))
    ensures s.ShapeKept()
    ensures old(s.Inv()) ==> (s.Inv() <==> (r.Ok? ==> old(Harmless(TermsOf(s), Call(clock, x), StateOf(s)))))
    ensures Follows(TermsOf(s), Call(clock, x), old(StateOf(s)), StateOf(s))
  {
    hide Balanced, Shape, TokensFit, StakePoolProgram.Inv, StakePoolProgram.ListShape, StakePoolProgram.TokensSound,
         OpOf, Loss, SharePrice.Step, FeeGrowth.PoolStep, EpochUpdate.SliceMissing, Recorded, Dropped,
         StakePoolProgram.MinReserve, Accepted, Performed;
    StateIs(s);
    if x.Increase? || x.Decrease? || x.MoveStake? || x.Add? || x.Remove? || x.Prefer? {
      r := ProcessStake(s, clock, x);
    } else if x.DepositLamports? || x.DepositAccount? || x.WithdrawLamports? || x.WithdrawAccount? {
      r := ProcessFlow(s, clock, x);
    } else {
      r := ProcessUpdate(s, clock, x);
    }
    StateIs(s);
  }

  // ------------------------------------------------------------ traces

  ghost predicate IsRun(c: Terms, events: seq<Event>, trace: seq<Snapshot>) {
    && |trace| == |events| + 1
    && forall i :: 0 <= i < |events| ==> Follows(c, events[i], trace[i], trace[i + 1])
  }

  /** In every reachable state the list has its shape and the supply its holders, whatever the books show. */
  lemma {:induction false} RunKeepsShape(c: Terms, events: seq<Event>, trace: seq<Snapshot>, k: nat)
    requires IsRun(c, events, trace) && k <= |events|
    ensures Shape(c, trace[0]) ==> Shape(c, trace[k])
    ensures TokensFit(trace[0]) ==> TokensFit(trace[k])
  {
    hide Shape, TokensFit, Balanced, Harmless, Orderly, Exact;
    if k > 0 { RunKeepsShape(c, events, trace, k - 1); }
  }

  ghost predicate AllHarmless(c: Terms, events: seq<Event>, trace: seq<Snapshot>)
    requires |trace| == |events| + 1
  {
    forall i :: 0 <= i < |events| ==> Harmless(c, events[i], trace[i])
  }

  /** Balanced books stay balanced while no event loses track of lamports. */
  lemma {:induction false} RunKeepsBooks(c: Terms, events: seq<Event>, trace: seq<Snapshot>, k: nat)
    requires IsRun(c, events, trace) && k <= |events| && Balanced(c, trace[0])
    requires AllHarmless(c, events, trace)
    ensures Balanced(c, trace[k])
  {
    hide Shape, TokensFit, Balanced, Harmless, Orderly, Exact;
    if k > 0 { RunKeepsBooks(c, events, trace, k - 1); }
  }

  ghost predicate NoLosses(events: seq<Event>, trace: seq<Snapshot>)
    requires |trace| == |events| + 1
  {
    forall i :: 0 <= i < |events| ==> !Loss(events[i], trace[i].pool, trace[i + 1].pool)
  }

  ghost predicate SupplyPositive(trace: seq<Snapshot>) {
    forall i :: 0 <= i < |trace| ==> trace[i].pool.poolTokenSupply > 0
  }

  function Pools(trace: seq<Snapshot>): (r: seq<StakePool>)
    ensures |r| == |trace| && forall i :: 0 <= i < |trace| ==> r[i] == trace[i].pool
  {
    seq(|trace|, i requires 0 <= i < |trace| => trace[i].pool)
  }

  /** Across epochs, too, a pool token never loses value unless a balance update finds fewer lamports. */
  lemma SharePriceOverRuns(c: Terms, events: seq<Event>, trace: seq<Snapshot>)
    requires IsRun(c, events, trace) && TokensFit(trace[0]) && NoLosses(events, trace) && SupplyPositive(trace)
    ensures var first, last := trace[0].pool, trace[|events|].pool;
      && SharePrice.NotBelow(first, last)
      && (last.poolTokenSupply == first.poolTokenSupply ==> last.totalLamports >= first.totalLamports)
  {
    hide TokensFit, Balanced, Harmless, Exact, SharePrice.Step, FeeGrowth.PoolStep, SharePrice.NotBelow, Loss, OpOf;
    var pools := Pools(trace);
    forall i | 0 < i < |pools| ensures SharePrice.Step(pools[i - 1], pools[i]) {
      RunKeepsShape(c, events, trace, i - 1);
      assert Follows(c, events[i - 1], trace[i - 1], trace[i]);
      assert !Loss(events[i - 1], trace[i - 1].pool, trace[i].pool);
    }
    SharePrice.RunKeepsPrice(pools);
    if pools[|events|].poolTokenSupply == pools[0].poolTokenSupply { SharePrice.NoExtraction(pools); }
  }

  function Ops(events: seq<Event>, trace: seq<Snapshot>): (r: seq<FeeGrowth.FeeOp>)
    requires |trace| == |events| + 1
    ensures |r| == |events|
    ensures forall i :: 0 <= i < |events| ==> r[i] == OpOf(events[i], trace[i].pool, trace[i + 1].pool)
  {
    seq(|events|, i requires 0 <= i < |events| => OpOf(events[i], trace[i].pool, trace[i + 1].pool))
  }

  /** The withdrawal fees anybody asks for have terms up to 2^63. */
  ghost predicate SmallFees(events: seq<Event>) {
    forall i :: 0 <= i < |events| && events[i].Call? && events[i].instruction.SetFee? ==>
      FeeGrowth.SmallOp(FeeGrowth.Set(events[i].clock, events[i].instruction.fee))
  }

  lemma LandIsNewEpoch(e: Event, p: StakePool, q: StakePool)
    requires FeeGrowth.PoolStep(p, q, OpOf(e, p, q)) && OpOf(e, p, q).Land?
    ensures p.lastUpdateEpoch < q.lastUpdateEpoch
  {
  }

  /** Fees land at most once an epoch. */
  lemma {:induction false} LandsWithinEpochs(c: Terms, events: seq<Event>, trace: seq<Snapshot>)
    requires IsRun(c, events, trace)
    ensures trace[0].pool.lastUpdateEpoch <= trace[|events|].pool.lastUpdateEpoch
    ensures FeeGrowth.Advances(FeeGrowth.LandFlags(Ops(events, trace)))
         <= trace[|events|].pool.lastUpdateEpoch - trace[0].pool.lastUpdateEpoch
  {
    hide Shape, TokensFit, Balanced, Harmless, Exact, SupplyFollows, SharePrice.Step, FeeGrowth.PoolStep, OpOf, Loss;
    var n := |events|;
    if n > 0 {
      var init, before := events[..n - 1], trace[..n];
      forall i | 0 <= i < n - 1 ensures Follows(c, init[i], before[i], before[i + 1]) {
        assert Follows(c, events[i], trace[i], trace[i + 1]);
      }
      LandsWithinEpochs(c, init, before);
      assert Follows(c, events[n - 1], trace[n - 1], trace[n]);
      var flags := FeeGrowth.LandFlags(Ops(events, trace));
      assert flags[..n - 1] == FeeGrowth.LandFlags(Ops(init, before));
      if flags[n - 1] { LandIsNewEpoch(events[n - 1], trace[n - 1].pool, trace[n].pool); }
    }
  }

  lemma RunLength(c: Terms, events: seq<Event>, trace: seq<Snapshot>)
    requires IsRun(c, events, trace)
    ensures |trace| == |events| + 1
  {
  }

  /** In the terms of the fee rules, the events of a run are fee operations on its pools. */
  lemma RunIsPoolRun(c: Terms, events: seq<Event>, trace: seq<Snapshot>)
    requires IsRun(c, events, trace) && SmallFees(events)
    ensures FeeGrowth.PoolRun(Pools(trace), Ops(events, trace))
  {
    hide Shape, TokensFit, Balanced, Harmless, Exact, SharePrice.Step, FeeGrowth.PoolStep, Loss, FeeGrowth.SetFee, OpOf;
    forall i | 0 <= i < |events|
      ensures FeeGrowth.PoolStep(trace[i].pool, trace[i + 1].pool, OpOf(events[i], trace[i].pool, trace[i + 1].pool))
      ensures FeeGrowth.SmallOp(OpOf(events[i], trace[i].pool, trace[i + 1].pool))
    {
      assert Follows(c, events[i], trace[i], trace[i + 1]);
      SmallOpOf(events, i, trace[i].pool, trace[i + 1].pool);
    }
  }

  lemma SmallOpOf(events: seq<Event>, i: nat, p: StakePool, q: StakePool)
    requires i < |events| && SmallFees(events)
    ensures FeeGrowth.SmallOp(OpOf(events[i], p, q))
  {
    hide FeeGrowth.SetFee, FeeGrowth.SmallTerms;
  }

  /**
   Whatever happens to a pool with no change of a withdrawal fee pending, in n epochs
   the fee at most becomes (3/2)^(n/2) times the larger of its start and 1/1000,
   provided all fees asked for have terms up to 2^63.
   */
  lemma WithdrawalFeesOverRuns(c: Terms, events: seq<Event>, trace: seq<Snapshot>)
    requires IsRun(c, events, trace) && SmallFees(events) && FeeGrowth.SettledFees(trace[0].pool)
    ensures var p, q := trace[0].pool, trace[|events|].pool;
      && p.lastUpdateEpoch <= q.lastUpdateEpoch
      && FeeGrowth.Grown(p.stakeWithdrawalFee, q.stakeWithdrawalFee, q.lastUpdateEpoch - p.lastUpdateEpoch)
      && FeeGrowth.Grown(p.solWithdrawalFee, q.solWithdrawalFee, q.lastUpdateEpoch - p.lastUpdateEpoch)
  {
    hide *;
    RunLength(c, events, trace);
    var pools, ops := Pools(trace), Ops(events, trace);
    var p, q := trace[0].pool, trace[|events|].pool;
    RunIsPoolRun(c, events, trace);
    LandsWithinEpochs(c, events, trace);
    FeeGrowth.WithdrawalFeesGrowSlowly(pools, ops);
    var landed := FeeGrowth.Advances(FeeGrowth.LandFlags(ops));
    FeeGrowth.GrownLonger(p.stakeWithdrawalFee, q.stakeWithdrawalFee, landed, q.lastUpdateEpoch - p.lastUpdateEpoch);
    FeeGrowth.GrownLonger(p.solWithdrawalFee, q.solWithdrawalFee, landed, q.lastUpdateEpoch - p.lastUpdateEpoch);
  }

  lemma OutsideFollows(c: Terms, s: Snapshot, l: Ledger)
    ensures Follows(c, Outside(l), s, s.(accounts := l))
  {
    hide Sound, ListFits, TokensAgree;
    QuietFees(Outside(l), s.pool, s.pool);
    SharePrice.StillStep(s.pool, s.pool);
    if Sound(s.pool, s.accounts, s.validators, c.minReserve) {
      OutsideKeepsBooksIff(s.pool, s.accounts, l, s.validators, c.minReserve);
    }
  }

  /** Holders may do with their tokens what they like: the list, the books and the share price do not notice. */
  lemma HoldersFollow(c: Terms, e: Event, s: Snapshot, t: Snapshot)
    requires e.HolderBurns? || e.HolderSends?
    requires t == if e.HolderBurns? then AfterBurn(s, e.holder, e.amount)
                  else AfterSend(s, e.holder, e.receiver, e.amount)
    ensures Follows(c, e, s, t)
  {
    hide Sound, ListFits, Supply, Transfer, StakePool.FeesBounded;
    QuietFees(e, s.pool, s.pool);
    SharePrice.StillStep(s.pool, s.pool);
    if e.HolderBurns? {
      if Burn(s.tokens, e.holder, e.amount).Some? { BurnSupply(s.tokens, e.holder, e.amount); }
    } else {
      if Transfer(s.tokens, e.holder, e.receiver, e.amount).Some? {
        TransferSupply(s.tokens, e.holder, e.receiver, e.amount);
      }
    }
  }

  /** The recorded supply is the mint's after an event if and only if it was before and nothing was burnt outside. */
  lemma SupplyExactIff(c: Terms, e: Event, s: Snapshot, t: Snapshot)
    requires Follows(c, e, s, t) && TokensFit(s) && !(e.Call? && e.instruction.UpdateBalance?)
    ensures Gap(t) == 0 <==> Gap(s) == 0 && BurntOutside(e, s) == 0
  {
    hide Shape, Supply, Balanced, Harmless, Orderly, Exact, StakePool.FeesBounded;
  }

  /** What holders burnt since the last balance update, over the first k events. */
  function BurntSince(events: seq<Event>, trace: seq<Snapshot>, k: nat): nat
    requires |trace| == |events| + 1 && k <= |events|
  {
    if k == 0 then 0
    else
      var e, before := events[k - 1], BurntSince(events, trace, k - 1);
      if e.Call? && e.instruction.UpdateBalance? && trace[k] != trace[k - 1] then 0
      else before + BurntOutside(e, trace[k - 1])
  }

  /** From exact supply on, the recorded supply exceeds the mint's by exactly what holders burnt since. */
  lemma {:induction false} SupplyOverRuns(c: Terms, events: seq<Event>, trace: seq<Snapshot>, k: nat)
    requires IsRun(c, events, trace) && k <= |events| && Gap(trace[0]) == 0
    ensures Gap(trace[k]) == BurntSince(events, trace, k)
  {
    hide Shape, TokensFit, Balanced, Harmless, Orderly, Exact, Gap;
    if k > 0 {
      SupplyOverRuns(c, events, trace, k - 1);
      assert Follows(c, events[k - 1], trace[k - 1], trace[k]);
    }
  }

  /** Events one after the other, failed instructions included; every state on the way is recorded. */
  method Run(s: StakePoolProgram, events: seq<Event>) returns (ghost trace: seq<Snapshot>)
    modifies s
    ensures |trace| == |events| + 1 && IsRun(TermsOf(s), events, trace)
    ensures trace[0] == old(StateOf(s)) && trace[|events|] == StateOf(s)
    ensures s.ShapeKept()
    ensures old(s.Inv()) && AllHarmless(TermsOf(s), events, trace) ==> s.Inv()
    ensures old(s.TokensSound()) && NoLosses(events, trace) && SupplyPositive(trace) ==>
      SharePrice.NotBelow(old(s.pool), s.pool)
  {
    hide Burn, Transfer, Gap, BurntSince, StakePoolProgram.SupplyGap;
    hide Follows, Balanced, Shape, TokensFit, Harmless, Loss, AllHarmless, NoLosses, SupplyPositive,
         SharePrice.NotBelow, StakePoolProgram.Inv, StakePoolProgram.ListShape, StakePoolProgram.TokensSound,
         StakePoolProgram.MinReserve;
    ghost var c := TermsOf(s);
    StateIs(s);
    trace := [StateOf(s)];
    var i := 0;
    while i < |events|
      invariant 0 <= i <= |events| && |trace| == i + 1
      invariant trace[0] == old(StateOf(s)) && trace[i] == StateOf(s)
      invariant forall j :: 0 <= j < i ==> Follows(c, events[j], trace[j], trace[j + 1])
    {
      match events[i] {
      case Call(clock, x) => var _ := Process(s, clock, x);
      case Outside(l) =>
        OutsideFollows(c, StateOf(s), l);
        s.accounts := l;
      case HolderBurns(holder, amount) =>
        HoldersFollow(c, events[i], StateOf(s), AfterBurn(StateOf(s), holder, amount));
        var left := Burn(s.tokens, holder, amount);
        if left.Some? && amount <= s.mintSupply { s.tokens, s.mintSupply := left.value, s.mintSupply - amount; }
      case HolderSends(holder, receiver, amount) =>
        HoldersFollow(c, events[i], StateOf(s), AfterSend(StateOf(s), holder, receiver, amount));
        var moved := Transfer(s.tokens, holder, receiver, amount);
        if moved.Some? { s.tokens := moved.value; }
      }
      trace := trace + [StateOf(s)];
      i := i + 1;
    }
    StateIs(s);
    RunKeepsShape(c, events, trace, i);
    if Balanced(c, trace[0]) && AllHarmless(c, events, trace) { RunKeepsBooks(c, events, trace, i); }
    if TokensFit(trace[0]) && NoLosses(events, trace) && SupplyPositive(trace) { SharePriceOverRuns(c, events, trace); }
  }

  lemma EveryState(c: Terms, events: seq<Event>, trace: seq<Snapshot>)
    requires |trace| == |events| + 1 && IsRun(c, events, trace)
    requires Shape(c, trace[0]) && TokensFit(trace[0]) && Gap(trace[0]) == 0
    ensures forall k :: 0 <= k <= |events| ==> Shape(c, trace[k]) && TokensFit(trace[k])
    ensures forall k :: 0 <= k <= |events| ==> Gap(trace[k]) == BurntSince(events, trace, k)
  {
    hide *;
    forall k | 0 <= k <= |events|
      ensures Shape(c, trace[k]) && TokensFit(trace[k]) && Gap(trace[k]) == BurntSince(events, trace, k)
    {
      RunKeepsShape(c, events, trace, k);
      SupplyOverRuns(c, events, trace, k);
    }
  }

  /**
   The whole life of a pool, from initialisation on. Unconditionally, no validator
   is listed twice, the list fits its account, the mint's supply is the holders', the
   recorded one exceeds it by what holders burnt since the last balance update, and the
   withdrawal fees grow slowly. Without stray lamports at the start and with harmless
   events only, the books balance at the end.
   */
  method Lifetime(clock: U64, epochFee: Fee, withdrawalFee: Fee, depositFee: Fee, referralFee: nat, maxValidators: nat,
                  listDataLength: nat, accounts: Ledger, tokens: Tokens, managerFeeAccount: nat,
                  stakeRent: U64, reserveRent: U64, stakeMinimum: U64, events: seq<Event>)
    returns (r: Result<StakePoolProgram, StakePoolError>, ghost trace: seq<Snapshot>)
    ensures r.Ok? ==> fresh(r.value) && IsRun(TermsOf(r.value), events, trace) && trace[|events|] == StateOf(r.value)
    ensures r.Ok? ==>
      && trace[0].accounts == accounts && trace[0].validators == [] && r.value.managerFeeAccount == managerFeeAccount
      && r.value.stakeRent == stakeRent && r.value.reserveRent == reserveRent && r.value.stakeMinimum == stakeMinimum
    ensures r.Ok? ==> forall k :: 0 <= k <= |events| ==> Shape(TermsOf(r.value), trace[k]) && TokensFit(trace[k])
    ensures r.Ok? ==> forall k :: 0 <= k <= |events| ==> Gap(trace[k]) == BurntSince(events, trace, k)
    ensures r.Ok? && NoStray(accounts, []) && AllHarmless(TermsOf(r.value), events, trace) ==> r.value.Inv()
    ensures r.Ok? && FeeGrowth.SmallTerms(withdrawalFee) && SmallFees(events) ==>
      && clock <= r.value.pool.lastUpdateEpoch
      && FeeGrowth.Grown(withdrawalFee, r.value.pool.stakeWithdrawalFee, r.value.pool.lastUpdateEpoch - clock)
      && FeeGrowth.Grown(withdrawalFee, r.value.pool.solWithdrawalFee, r.value.pool.lastUpdateEpoch - clock)
  {
    hide Follows, Balanced, Shape, TokensFit, Harmless, Loss, AllHarmless, NoLosses, SupplyPositive,
         SharePrice.NotBelow, FeeGrowth.SmallTerms, SmallFees, FeeGrowth.Grown, IsRun, NoStray, StakePoolProgram.Inv,
         StakePoolProgram.ListShape, StakePoolProgram.TokensSound, StakePoolProgram.MinReserve, CalculateMaxValidators,
         Supply, TokensOf, Balance, At;
    hide Gap, BurntSince, StakePoolProgram.SupplyGap;
    r := StakePoolProgram.Initialize(clock, epochFee, withdrawalFee, depositFee, referralFee, maxValidators,
                                     listDataLength, accounts, tokens, managerFeeAccount, stakeRent, reserveRent,
                                     stakeMinimum);
    trace := [];
    if r.Err? { return; }
    StateIs(r.value);
    trace := Run(r.value, events);
    ghost var c := TermsOf(r.value);
    EveryState(c, events, trace);
    if FeeGrowth.SmallTerms(withdrawalFee) && SmallFees(events) { WithdrawalFeesOverRuns(c, events, trace); }
  }
}
