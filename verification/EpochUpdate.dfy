/**
 The epoch update of programs/albus-stake-pool: what becomes of one validator's
 accounts and record (processor.rs), how a client cuts the list into update
 steps (instruction.rs), and why the steps together conserve value.
 */
module EpochUpdate {
  import opened Wrappers
  import opened StakeState
  import opened StakeProgram
  import opened ValidatorLists
  import opened Books

  /** Not earning any more, without looking at cool-downs. */
  predicate InactiveWithoutHistory(k: Kind, epoch: U64)
    requires k.Delegated?
  {
    k.deactivation < epoch || (k.activation == epoch && k.deactivation == epoch)
  }

  /** Stake deactivated in an epoch is inactive from the next one on, or at once if it was delegated in that epoch. */
  lemma DeactivatedIsInactive(l: Ledger, a: Address, epoch: U64, now: U64)
    requires Deactivate(l, a, epoch).Some? && epoch <= now
    ensures var k := At(Deactivate(l, a, epoch).value, a).kind;
      InactiveWithoutHistory(k, now) <==> epoch < now || At(l, a).kind.activation == now
    ensures now < EPOCH_MAX ==> !InactiveWithoutHistory(At(l, a).kind, now)
  {
  }

  /** The accounts, the lamports left to record, and the status, after one account was dealt with. */
  datatype Settled = Settled(ledger: Ledger, lamports: U64, status: StakeStatus)

  /** All of an account's lamports into the reserve. */
  function Absorb(l: Ledger, a: Address, status: StakeStatus): Result<Settled, StakePoolError> {
    var merged := Merge(l, a, Reserve);
    if merged.None? then Err(StakeProgramRefused) else Ok(Settled(merged.value, 0, status))
  }

  /**
   The transient account: inactive stake goes to the reserve, active stake to an
   active validator account, anything else is only counted; with `noMerge` it is
   always only counted. Stake the pool cannot use is ignored.
   */
  function SettleTransient(l: Ledger, r: ValidatorStakeInfo, clock: U64, noMerge: bool): Result<Settled, StakePoolError>
  {
    var a := r.TransientAddress();
    var t, validator := At(l, a), At(l, r.ValidatorAddress()).kind;
    var counted := Ok(Settled(l, t.lamports, r.status));
    if t.kind.Uninitialized? || !t.usable then Ok(Settled(l, 0, r.status))
    else if noMerge then counted
    else if t.kind.Initialized? || InactiveWithoutHistory(t.kind, clock) then
      Absorb(l, a, r.status.RemoveTransientStake())
    else if t.kind.activation < clock && validator.Delegated? && validator.activation < clock then
      var merged := Merge(l, a, r.ValidatorAddress());
      if merged.None? then Err(StakeProgramRefused) else Ok(Settled(merged.value, 0, r.status))
    else counted
  }

  /**
   The validator account: lamports beyond rent and delegation go to the reserve;
   then it is counted while active, and absorbed once deactivated. `delegated` is
   the amount the stake program has delegated in it.
   */
  function SettleValidator(l: Ledger, r: ValidatorStakeInfo, status: StakeStatus, delegated: U64, rent: U64,
                           clock: U64, noMerge: bool): Result<Settled, StakePoolError>
  {
    var a := r.ValidatorAddress();
    var v := At(l, a);
    if v.kind.Delegated? then
      var additional := SaturatingSub(SaturatingSub(v.lamports, delegated), rent);
      var trimmed := if additional > 0 && v.usable then Withdraw(l, a, Reserve, additional) else Some(l);
      if trimmed.None? then Err(StakeProgramRefused)
      else
        var m := trimmed.value;
        match status
        case Active => Ok(Settled(m, Balance(m, a), status))
        case DeactivatingValidator | DeactivatingAll =>
          if noMerge then Ok(Settled(m, Balance(m, a), status))
          else if v.usable && InactiveWithoutHistory(v.kind, clock) then Absorb(m, a, status.RemoveValidatorStake())
          else Ok(Settled(m, 0, status))
        case _ => Ok(Settled(m, 0, status))
    else if v.kind.Initialized? && v.usable then Absorb(l, a, status.RemoveValidatorStake())
    else Ok(Settled(l, 0, status))
  }

  function UpdateRecord(l: Ledger, r: ValidatorStakeInfo, delegated: U64, rent: U64, clock: U64, noMerge: bool)
    : Result<(Ledger, ValidatorStakeInfo), StakePoolError>
  {
    var pending := SettleTransient(l, r, clock, noMerge);
    if pending.Err? then Err(pending.error)
    else
      var standing := SettleValidator(pending.value.ledger, r, pending.value.status, delegated, rent, clock, noMerge);
      if standing.Err? then Err(standing.error)
      else Ok((standing.value.ledger,
               r.(lastUpdateEpoch := clock, active := standing.value.lamports, transient := pending.value.lamports,
                  status := standing.value.status)))
  }

  // ---------------------------------------------------- one record conserves

  /** The two accounts of a record, as the update finds them. */
  function TransientOf(l: Ledger, r: ValidatorStakeInfo): StakeAccount {
    At(l, r.TransientAddress())
  }

  function StandingOf(l: Ledger, r: ValidatorStakeInfo): StakeAccount {
    At(l, r.ValidatorAddress())
  }

  /** Accounts the pool can use or that hold nothing. */
  predicate Usable(l: Ledger, r: ValidatorStakeInfo) {
    var t, v := TransientOf(l, r), StandingOf(l, r);
    && (t.lamports == 0 || (t.usable && !t.kind.Uninitialized?))
    && (v.lamports == 0 || v.kind.Delegated? || (v.kind.Initialized? && v.usable))
  }

  predicate Countable(l: Ledger, r: ValidatorStakeInfo) {
    r.status == Active && Usable(l, r)
  }

  /** The transient account is empty of stake, so the reserve takes it. */
  predicate Idle(t: StakeAccount, clock: U64) {
    t.usable && (t.kind.Initialized? || (t.kind.Delegated? && InactiveWithoutHistory(t.kind, clock)))
  }

  /** Both accounts are active, so the validator's takes the transient one. */
  predicate Joins(t: StakeAccount, v: StakeAccount, clock: U64) {
    && t.usable && t.kind.Delegated? && !Idle(t, clock) && t.kind.activation < clock
    && v.kind.Delegated? && v.kind.activation < clock
  }

  /** Transient stake no branch looks at. */
  function Ignored(t: StakeAccount): U64 {
    if t.usable && !t.kind.Uninitialized? then 0 else t.lamports
  }

  /**
   Whether the validator account's lamports end up in the record or the reserve: not
   while a removed validator cools down.
   */
  predicate Counted(v: StakeAccount, status: StakeStatus, clock: U64, noMerge: bool) {
    if v.kind.Delegated? then
      match status
      case Active => true
      case DeactivatingValidator | DeactivatingAll => noMerge || (v.usable && InactiveWithoutHistory(v.kind, clock))
      case _ => false
    else v.kind.Initialized? && v.usable
  }

  /** What a usable delegated account gives up to the reserve: all beyond its delegation and rent. */
  function Surplus(v: StakeAccount, lamports: nat, delegated: U64, rent: U64): nat {
    if v.kind.Delegated? && v.usable && lamports > delegated + rent then lamports - delegated - rent else 0
  }

  /** The status once the transient account was dealt with. */
  function StatusLeft(l: Ledger, r: ValidatorStakeInfo, clock: U64, noMerge: bool): StakeStatus {
    if !noMerge && Idle(TransientOf(l, r), clock) then r.status.RemoveTransientStake() else r.status
  }

  /** The validator account's lamports once the transient account was dealt with. */
  function LamportsLeft(l: Ledger, r: ValidatorStakeInfo, clock: U64, noMerge: bool): nat {
    var t, v := TransientOf(l, r), StandingOf(l, r);
    v.lamports + if !noMerge && Joins(t, v, clock) then t.lamports else 0
  }

  /** The lamports an update of the record leaves neither in the record nor in the reserve. */
  function Missing(l: Ledger, r: ValidatorStakeInfo, delegated: U64, rent: U64, clock: U64, noMerge: bool): nat {
    var v, standing := StandingOf(l, r), LamportsLeft(l, r, clock, noMerge);
    Ignored(TransientOf(l, r)) +
    if Counted(v, StatusLeft(l, r, clock, noMerge), clock, noMerge) then 0
    else standing - Surplus(v, standing, delegated, rent)
  }

  lemma TransientSettled(l: Ledger, r: ValidatorStakeInfo, clock: U64, noMerge: bool)
    requires SettleTransient(l, r, clock, noMerge).Ok?
    ensures var s := SettleTransient(l, r, clock, noMerge).value;
      var t, v := TransientOf(l, r), StandingOf(l, r);
      && s.status == StatusLeft(l, r, clock, noMerge)
      && Balance(s.ledger, r.TransientAddress()) == s.lamports + Ignored(t)
      && StandingOf(s.ledger, r) == v.(lamports := Balance(s.ledger, r.ValidatorAddress()))
      && Balance(s.ledger, r.ValidatorAddress()) == LamportsLeft(l, r, clock, noMerge)
      && Balance(s.ledger, Reserve) + Balance(s.ledger, r.ValidatorAddress()) + Balance(s.ledger, r.TransientAddress())
         == Balance(l, Reserve) + v.lamports + t.lamports
      && SameExcept(l, s.ledger, {Reserve, r.ValidatorAddress(), r.TransientAddress()})
  {
    hide Merge;
  }

  lemma ValidatorSettled(l: Ledger, r: ValidatorStakeInfo, status: StakeStatus, delegated: U64, rent: U64, clock: U64,
                         noMerge: bool)
    requires SettleValidator(l, r, status, delegated, rent, clock, noMerge).Ok?
    ensures var s := SettleValidator(l, r, status, delegated, rent, clock, noMerge).value;
      var v, left := StandingOf(l, r), Balance(s.ledger, r.ValidatorAddress());
      && (status == Active ==> s.status == Active)
      && s.lamports == (if Counted(v, status, clock, noMerge) then left else 0)
      && (!Counted(v, status, clock, noMerge) ==> left == v.lamports - Surplus(v, v.lamports, delegated, rent))
      && Balance(s.ledger, Reserve) + left == Balance(l, Reserve) + v.lamports
      && SameExcept(l, s.ledger, {Reserve, r.ValidatorAddress()})
  {
    hide Merge, Withdraw;
  }

  /** Only who and where a record is about. */
  predicate SameIdentity(r: ValidatorStakeInfo, s: ValidatorStakeInfo) {
    s.vote == r.vote && s.validatorSeed == r.validatorSeed && s.transientSeed == r.transientSeed
  }

  /**
   For a record of any status and accounts of any kind: an update that succeeds
   conserves value if and only if nothing is missing, and otherwise loses exactly
   what is missing. With nothing missing the record equals its accounts.
   */
  lemma ConservedIffNothingMissing(l: Ledger, r: ValidatorStakeInfo, delegated: U64, rent: U64, clock: U64,
                                   noMerge: bool)
    requires UpdateRecord(l, r, delegated, rent, clock, noMerge).Ok?
    ensures var (m, s) := UpdateRecord(l, r, delegated, rent, clock, noMerge).value;
      var missing := Missing(l, r, delegated, rent, clock, noMerge);
      && Balance(m, Reserve) + s.active + s.transient + missing
         == Balance(l, Reserve) + Balance(l, r.ValidatorAddress()) + Balance(l, r.TransientAddress())
      && (missing == 0 ==>
          Balance(m, r.ValidatorAddress()) == s.active && Balance(m, r.TransientAddress()) == s.transient)
      && SameExcept(l, m, {Reserve, r.ValidatorAddress(), r.TransientAddress()})
  {
    hide SettleTransient, SettleValidator, Counted, Joins, Idle, Surplus;
    TransientSettled(l, r, clock, noMerge);
    var pending := SettleTransient(l, r, clock, noMerge).value;
    ValidatorSettled(pending.ledger, r, pending.status, delegated, rent, clock, noMerge);
    CountedSame(StandingOf(l, r), StandingOf(pending.ledger, r), pending.status, clock, noMerge);
    SurplusSame(StandingOf(l, r), StandingOf(pending.ledger, r), delegated, rent);
  }

  lemma CountedSame(v: StakeAccount, w: StakeAccount, status: StakeStatus, clock: U64, noMerge: bool)
    requires w == v.(lamports := w.lamports)
    ensures Counted(v, status, clock, noMerge) == Counted(w, status, clock, noMerge)
  {
  }

  lemma SurplusSame(v: StakeAccount, w: StakeAccount, delegated: U64, rent: U64)
    requires w == v.(lamports := w.lamports)
    ensures Surplus(v, w.lamports, delegated, rent) == Surplus(w, w.lamports, delegated, rent)
  {
  }

  /** Of an active record nothing is missing, whichever branches are taken, if and only if its accounts are usable. */
  lemma CountableMissesNothing(l: Ledger, r: ValidatorStakeInfo, delegated: U64, rent: U64, clock: U64, noMerge: bool)
    requires r.status == Active
    ensures Missing(l, r, delegated, rent, clock, noMerge) == 0 <==> Countable(l, r)
  {
  }

  /** An update stamps the record, keeps what it is about, and never takes an active validator off the list. */
  lemma UpdateStamps(l: Ledger, r: ValidatorStakeInfo, delegated: U64, rent: U64, clock: U64, noMerge: bool)
    requires UpdateRecord(l, r, delegated, rent, clock, noMerge).Ok?
    ensures var s := UpdateRecord(l, r, delegated, rent, clock, noMerge).value.1;
      SameIdentity(r, s) && s.lastUpdateEpoch == clock && (r.status == Active ==> s.status == Active)
  {
    hide SettleTransient, SettleValidator;
    TransientSettled(l, r, clock, noMerge);
    var pending := SettleTransient(l, r, clock, noMerge).value;
    ValidatorSettled(pending.ledger, r, pending.status, delegated, rent, clock, noMerge);
  }

  /** For an active record with usable accounts, all lamports end up in the record or in the reserve. */
  lemma UpdateRecordConserves(l: Ledger, r: ValidatorStakeInfo, delegated: U64, rent: U64, clock: U64, noMerge: bool)
    requires Countable(l, r) && UpdateRecord(l, r, delegated, rent, clock, noMerge).Ok?
    ensures var (m, s) := UpdateRecord(l, r, delegated, rent, clock, noMerge).value;
      && SameIdentity(r, s) && s.status == Active && s.lastUpdateEpoch == clock
      && Balance(m, r.ValidatorAddress()) == s.active && Balance(m, r.TransientAddress()) == s.transient
      && Balance(m, Reserve) + s.active + s.transient
         == Balance(l, Reserve) + Balance(l, r.ValidatorAddress()) + Balance(l, r.TransientAddress())
      && SameExcept(l, m, {Reserve, r.ValidatorAddress(), r.TransientAddress()})
  {
    hide UpdateRecord, Missing;
    CountableMissesNothing(l, r, delegated, rent, clock, noMerge);
    UpdateStamps(l, r, delegated, rent, clock, noMerge);
    ConservedIffNothingMissing(l, r, delegated, rent, clock, noMerge);
  }

  // ----------------------------------------------- where everything ends up

  /** The account a with other lamports. */
  predicate Holding(a: StakeAccount, b: StakeAccount, lamports: nat) {
    b.lamports == lamports && b == a.(lamports := b.lamports)
  }

  /** The reserve takes the whole validator account. */
  predicate Absorbed(v: StakeAccount, status: StakeStatus, clock: U64, noMerge: bool) {
    && v.usable
    && (v.kind.Initialized?
        || (v.kind.Delegated? && !noMerge && status in {DeactivatingValidator, DeactivatingAll}
            && (v.kind.deactivation < clock || v.kind.activation == v.kind.deactivation == clock)))
  }

  /** What the reserve gains: idle transient stake, and all or the surplus of the validator account. */
  function Gain(l: Ledger, r: ValidatorStakeInfo, delegated: U64, rent: U64, clock: U64, noMerge: bool): nat {
    var t, v, standing := TransientOf(l, r), StandingOf(l, r), LamportsLeft(l, r, clock, noMerge);
    (if !noMerge && Idle(t, clock) then t.lamports else 0)
    + if Absorbed(v, StatusLeft(l, r, clock, noMerge), clock, noMerge) then standing
      else Surplus(v, standing, delegated, rent)
  }

  /**
   The transient account is closed when its stake is idle or joins the validator's,
   and else left as it is; left stake is recorded if the pool can use it.
   */
  predicate TransientPlaced(l: Ledger, m: Ledger, r: ValidatorStakeInfo, s: ValidatorStakeInfo, clock: U64,
                            noMerge: bool)
  {
    var t := TransientOf(l, r);
    if !noMerge && (Idle(t, clock) || Joins(t, StandingOf(l, r), clock)) then
      TransientOf(m, r) == CLOSED && s.transient == 0
    else TransientOf(m, r) == t && s.transient == if t.usable && !t.kind.Uninitialized? then t.lamports else 0
  }

  /**
   The validator account is closed when the reserve takes all of it. Otherwise it keeps
   everything but the surplus, delegated as it was, and that is recorded while the
   validator is active, or deactivates and nothing may be merged.
   */
  predicate StandingPlaced(l: Ledger, m: Ledger, r: ValidatorStakeInfo, s: ValidatorStakeInfo, delegated: U64,
                           rent: U64, clock: U64, noMerge: bool)
  {
    var v, status, standing := StandingOf(l, r), StatusLeft(l, r, clock, noMerge), LamportsLeft(l, r, clock, noMerge);
    var left := standing - Surplus(v, standing, delegated, rent);
    if Absorbed(v, status, clock, noMerge) then
      StandingOf(m, r) == CLOSED && s.active == 0 && s.status == status.RemoveValidatorStake()
    else
      && (if left == 0 < standing then StandingOf(m, r) == CLOSED else Holding(v, StandingOf(m, r), left))
      && s.status == status
      && s.active ==
           if v.kind.Delegated?
              && (status == Active || (status in {DeactivatingValidator, DeactivatingAll} && noMerge))
           then left else 0
  }

  /** A record and its two accounts after an update, from what they were before it. */
  predicate Placed(l: Ledger, m: Ledger, r: ValidatorStakeInfo, s: ValidatorStakeInfo, delegated: U64, rent: U64,
                   clock: U64, noMerge: bool)
  {
    && SameIdentity(r, s) && s.lastUpdateEpoch == clock
    && TransientPlaced(l, m, r, s, clock, noMerge)
    && StandingPlaced(l, m, r, s, delegated, rent, clock, noMerge)
  }

  lemma TransientEnds(l: Ledger, r: ValidatorStakeInfo, clock: U64, noMerge: bool)
    requires SettleTransient(l, r, clock, noMerge).Ok?
    ensures var x := SettleTransient(l, r, clock, noMerge).value;
      var t, v := TransientOf(l, r), StandingOf(l, r);
      && TransientPlaced(l, x.ledger, r, r.(transient := x.lamports), clock, noMerge)
      && x.status == StatusLeft(l, r, clock, noMerge)
      && Holding(v, StandingOf(x.ledger, r), LamportsLeft(l, r, clock, noMerge))
      && Holding(At(l, Reserve), At(x.ledger, Reserve),
                 Balance(l, Reserve) + if !noMerge && Idle(t, clock) then t.lamports else 0)
  {
    hide Merge;
  }

  lemma StandingEnds(l: Ledger, r: ValidatorStakeInfo, status: StakeStatus, delegated: U64, rent: U64, clock: U64,
                     noMerge: bool)
    requires SettleValidator(l, r, status, delegated, rent, clock, noMerge).Ok?
    ensures var x := SettleValidator(l, r, status, delegated, rent, clock, noMerge).value;
      var v := StandingOf(l, r);
      var surplus, absorbed := Surplus(v, v.lamports, delegated, rent), Absorbed(v, status, clock, noMerge);
      var left := v.lamports - surplus;
      && TransientOf(x.ledger, r) == TransientOf(l, r)
      && (if absorbed || left == 0 < v.lamports then StandingOf(x.ledger, r) == CLOSED
          else Holding(v, StandingOf(x.ledger, r), left))
      && (x.status == if absorbed then status.RemoveValidatorStake() else status)
      && (x.lamports ==
            if !absorbed && v.kind.Delegated?
               && (status == Active || (status in {DeactivatingValidator, DeactivatingAll} && noMerge))
            then left else 0)
      && Holding(At(l, Reserve), At(x.ledger, Reserve), Balance(l, Reserve) + if absorbed then v.lamports else surplus)
  {
    hide Merge, Withdraw;
  }

  /**
   Where every lamport of a record's two accounts ends up, whatever the status of the
   record and the kinds of the accounts: in its account, in the validator's, or in the
   reserve, with what is recorded of it and the status that is left.
   */
  lemma UpdateRecordPlaces(l: Ledger, r: ValidatorStakeInfo, delegated: U64, rent: U64, clock: U64, noMerge: bool)
    requires UpdateRecord(l, r, delegated, rent, clock, noMerge).Ok?
    ensures var (m, s) := UpdateRecord(l, r, delegated, rent, clock, noMerge).value;
      && Placed(l, m, r, s, delegated, rent, clock, noMerge)
      && Holding(At(l, Reserve), At(m, Reserve), Balance(l, Reserve) + Gain(l, r, delegated, rent, clock, noMerge))
  {
    hide SettleTransient, SettleValidator, Joins, Idle;
    TransientEnds(l, r, clock, noMerge);
    var x := SettleTransient(l, r, clock, noMerge).value;
    StandingEnds(x.ledger, r, x.status, delegated, rent, clock, noMerge);
  }

  /**
   An active validator's stake stays where it is: the account keeps its delegation and
   all but the surplus, which is recorded, with the transient stake if both are active;
   the reserve gains the surplus and idle transient stake, nothing else.
   */
  lemma ActiveStakeStays(l: Ledger, r: ValidatorStakeInfo, delegated: U64, rent: U64, clock: U64, noMerge: bool)
    requires r.status == Active && StandingOf(l, r).kind.Delegated? && delegated + rent > 0
    requires UpdateRecord(l, r, delegated, rent, clock, noMerge).Ok?
    ensures var (m, s) := UpdateRecord(l, r, delegated, rent, clock, noMerge).value;
      var t, v := TransientOf(l, r), StandingOf(l, r);
      var joined := if !noMerge && Joins(t, v, clock) then t.lamports else 0;
      var surplus := if v.usable then SaturatingSub(v.lamports + joined, delegated + rent) else 0;
      && s.status == Active && StandingOf(m, r).kind == v.kind
      && StandingOf(m, r).lamports == s.active == v.lamports + joined - surplus
      && Balance(m, Reserve) == Balance(l, Reserve) + surplus + (if !noMerge && Idle(t, clock) then t.lamports else 0)
      && (noMerge || (!Idle(t, clock) && !Joins(t, v, clock)) ==> TransientOf(m, r) == t)
  {
    hide UpdateRecord, Joins, Idle;
    UpdateRecordPlaces(l, r, delegated, rent, clock, noMerge);
  }

  /**
   An update is never refused, as long as the reserve is a stake account and can hold
   the lamports of all three.
   */
  lemma UpdateSucceeds(l: Ledger, r: ValidatorStakeInfo, delegated: U64, rent: U64, clock: U64, noMerge: bool)
    requires !At(l, Reserve).kind.Uninitialized? && rent > 0
    requires Balance(l, Reserve) + TransientOf(l, r).lamports + StandingOf(l, r).lamports <= U64_MAX
    ensures UpdateRecord(l, r, delegated, rent, clock, noMerge).Ok?
  {
    hide Merge, Withdraw, Pay;
    var x := SettleTransient(l, r, clock, noMerge);
    assert x.Ok? by { hide SettleValidator; }
    TransientEnds(l, r, clock, noMerge);
    hide SettleTransient;
  }

  // ------------------------------------------------------- one update step

  /** Records from `start` on against the given pairs of accounts; a record whose addresses do not fit is skipped. */
  function UpdateSlice(l: Ledger, v: Records, start: nat, stakes: seq<Address>, delegated: Address -> U64, rent: U64,
                       clock: U64, noMerge: bool): (r: Result<(Ledger, Records), StakePoolError>)
    requires start + |stakes| / 2 <= |v|
    ensures r.Ok? ==> |r.value.1| == |v|
    decreases |stakes|
  {
    if |stakes| < 2 then Ok((l, v))
    else if stakes[0] != v[start].ValidatorAddress() || stakes[1] != v[start].TransientAddress() then
      UpdateSlice(l, v, start + 1, stakes[2..], delegated, rent, clock, noMerge)
    else
      var one := UpdateRecord(l, v[start], delegated(stakes[0]), rent, clock, noMerge);
      if one.Err? then Err(one.error)
      else UpdateSlice(one.value.0, v[start := one.value.1], start + 1, stakes[2..], delegated, rent, clock, noMerge)
  }

  ghost predicate SameIdentities(v: Records, w: Records) {
    |v| == |w| && forall j :: 0 <= j < |v| ==> SameIdentity(v[j], w[j])
  }

  lemma IdentitiesDistinct(v: Records, w: Records)
    requires SameIdentities(v, w) && DistinctVotes(v)
    ensures DistinctVotes(w)
  {
  }

  /** An update step never changes which validators are listed, whatever the status of their records. */
  lemma {:induction false} SliceIdentities(l: Ledger, v: Records, start: nat, stakes: seq<Address>,
                                           delegated: Address -> U64, rent: U64, clock: U64, noMerge: bool)
    requires start + |stakes| / 2 <= |v|
    requires UpdateSlice(l, v, start, stakes, delegated, rent, clock, noMerge).Ok?
    ensures SameIdentities(v, UpdateSlice(l, v, start, stakes, delegated, rent, clock, noMerge).value.1)
    decreases |stakes|
  {
    hide UpdateRecord;
    if |stakes| >= 2 {
      if stakes[..2] != Pair(v[start]) {
        SliceIdentities(l, v, start + 1, stakes[2..], delegated, rent, clock, noMerge);
      } else {
        UpdateStamps(l, v[start], delegated(stakes[0]), rent, clock, noMerge);
        var (m, s) := UpdateRecord(l, v[start], delegated(stakes[0]), rent, clock, noMerge).value;
        SliceIdentities(m, v[start := s], start + 1, stakes[2..], delegated, rent, clock, noMerge);
      }
    }
  }

  /** The lamports an update step loses, from the state before it. */
  function SliceMissing(l: Ledger, v: Records, start: nat, stakes: seq<Address>, delegated: Address -> U64, rent: U64,
                        clock: U64, noMerge: bool): nat
    requires start + |stakes| / 2 <= |v|
    decreases |stakes|
  {
    if |stakes| < 2 then 0
    else
      (if stakes[..2] == Pair(v[start]) then Missing(l, v[start], delegated(stakes[0]), rent, clock, noMerge) else 0)
      + SliceMissing(l, v, start + 1, stakes[2..], delegated, rent, clock, noMerge)
  }

  /** From record k on, records and their accounts are the same. */
  ghost predicate SameFrom(l: Ledger, m: Ledger, v: Records, w: Records, k: nat) {
    && |w| == |v|
    && (forall j :: k <= j < |v| ==> w[j] == v[j])
    && (forall j :: k <= j < |v| ==> TransientOf(m, v[j]) == TransientOf(l, v[j]))
    && (forall j :: k <= j < |v| ==> StandingOf(m, v[j]) == StandingOf(l, v[j]))
  }

  lemma MissingSame(l: Ledger, m: Ledger, r: ValidatorStakeInfo, delegated: U64, rent: U64, clock: U64, noMerge: bool)
    requires TransientOf(m, r) == TransientOf(l, r) && StandingOf(m, r) == StandingOf(l, r)
    ensures Missing(m, r, delegated, rent, clock, noMerge) == Missing(l, r, delegated, rent, clock, noMerge)
  {
  }

  lemma {:induction false} SliceMissingSame(l: Ledger, m: Ledger, v: Records, w: Records, start: nat,
                                            stakes: seq<Address>, delegated: Address -> U64, rent: U64, clock: U64,
                                            noMerge: bool)
    requires start + |stakes| / 2 <= |v| && SameFrom(l, m, v, w, start)
    ensures SliceMissing(m, w, start, stakes, delegated, rent, clock, noMerge)
         == SliceMissing(l, v, start, stakes, delegated, rent, clock, noMerge)
    decreases |stakes|
  {
    if |stakes| >= 2 {
      SliceMissingSame(l, m, v, w, start + 1, stakes[2..], delegated, rent, clock, noMerge);
    }
  }

  /** The records an update step deals with: those whose accounts were given for them. */
  function Chosen(v: Records, start: nat, stakes: seq<Address>): set<nat> {
    set j | start <= j < |v| && 2 * (j - start) + 1 < |stakes|
            && stakes[2 * (j - start)] == v[j].ValidatorAddress()
            && stakes[2 * (j - start) + 1] == v[j].TransientAddress()
  }

  /** The chosen records and their accounts are as an update leaves each of them; the others stay. */
  ghost predicate PlacedAt(l: Ledger, m: Ledger, v: Records, w: Records, chosen: set<nat>, delegated: Address -> U64,
                           rent: U64, clock: U64, noMerge: bool)
  {
    && |w| == |v|
    && At(m, Reserve) == At(l, Reserve).(lamports := Balance(m, Reserve))
    && forall j :: 0 <= j < |v| ==>
         if j in chosen then Placed(l, m, v[j], w[j], delegated(v[j].ValidatorAddress()), rent, clock, noMerge)
         else Stays(l, m, v[j], w[j])
  }

  predicate Stays(l: Ledger, m: Ledger, r: ValidatorStakeInfo, s: ValidatorStakeInfo) {
    s == r && TransientOf(m, r) == TransientOf(l, r) && StandingOf(m, r) == StandingOf(l, r)
  }

  lemma PlacedThenStays(l: Ledger, m: Ledger, n: Ledger, r: ValidatorStakeInfo, s: ValidatorStakeInfo,
                        x: ValidatorStakeInfo, delegated: U64, rent: U64, clock: U64, noMerge: bool)
    requires Placed(l, m, r, s, delegated, rent, clock, noMerge) && Stays(m, n, s, x)
    ensures Placed(l, n, r, x, delegated, rent, clock, noMerge)
  {
  }

  lemma StaysThenPlaced(l: Ledger, m: Ledger, n: Ledger, r: ValidatorStakeInfo, s: ValidatorStakeInfo,
                        x: ValidatorStakeInfo, delegated: U64, rent: U64, clock: U64, noMerge: bool)
    requires Stays(l, m, r, s) && Placed(m, n, s, x, delegated, rent, clock, noMerge)
    ensures Placed(l, n, r, x, delegated, rent, clock, noMerge)
  {
  }

  lemma PlacedAtTrans(l: Ledger, m: Ledger, n: Ledger, v: Records, w: Records, x: Records, first: set<nat>,
                      second: set<nat>, delegated: Address -> U64, rent: U64, clock: U64, noMerge: bool)
    requires PlacedAt(l, m, v, w, first, delegated, rent, clock, noMerge)
    requires PlacedAt(m, n, w, x, second, delegated, rent, clock, noMerge)
    requires first !! second && SameIdentities(v, w)
    ensures PlacedAt(l, n, v, x, first + second, delegated, rent, clock, noMerge)
  {
    forall j | 0 <= j < |v|
      ensures if j in first + second
        then Placed(l, n, v[j], x[j], delegated(v[j].ValidatorAddress()), rent, clock, noMerge)
        else Stays(l, n, v[j], x[j])
    {
      var d := delegated(v[j].ValidatorAddress());
      assert SameIdentity(v[j], w[j]);
      hide Placed;
      if j in first {
        PlacedThenStays(l, m, n, v[j], w[j], x[j], d, rent, clock, noMerge);
      } else if j in second {
        StaysThenPlaced(l, m, n, v[j], w[j], x[j], d, rent, clock, noMerge);
      }
    }
  }

  lemma OnePlacedAt(l: Ledger, v: Records, k: nat, delegated: Address -> U64, rent: U64, clock: U64, noMerge: bool)
    requires k < |v| && DistinctVotes(v)
    requires UpdateRecord(l, v[k], delegated(v[k].ValidatorAddress()), rent, clock, noMerge).Ok?
    ensures var (m, s) := UpdateRecord(l, v[k], delegated(v[k].ValidatorAddress()), rent, clock, noMerge).value;
      PlacedAt(l, m, v, v[k := s], {k}, delegated, rent, clock, noMerge)
  {
    hide UpdateRecord, Placed;
    var d := delegated(v[k].ValidatorAddress());
    UpdateRecordPlaces(l, v[k], d, rent, clock, noMerge);
    ConservedIffNothingMissing(l, v[k], d, rent, clock, noMerge);
    var (m, s) := UpdateRecord(l, v[k], d, rent, clock, noMerge).value;
    forall j | 0 <= j < |v| && j != k ensures Stays(l, m, v[j], v[k := s][j]) {
      assert v[j].vote != v[k].vote;
    }
  }

  lemma NonePlacedAt(l: Ledger, v: Records, delegated: Address -> U64, rent: U64, clock: U64, noMerge: bool)
    ensures PlacedAt(l, l, v, v, {}, delegated, rent, clock, noMerge)
  {
  }

  lemma ChosenNext(v: Records, w: Records, start: nat, stakes: seq<Address>)
    requires start < |v| && |stakes| >= 2 && SameIdentities(v, w)
    ensures Chosen(v, start, stakes)
         == (if stakes[..2] == Pair(v[start]) then {start} else {}) + Chosen(w, start + 1, stakes[2..])
    ensures start !in Chosen(w, start + 1, stakes[2..])
  {
    var here := if stakes[..2] == Pair(v[start]) then {start} else {};
    forall j: nat ensures j in Chosen(v, start, stakes) <==> j in here + Chosen(w, start + 1, stakes[2..]) {
      if start < j < |v| { assert SameIdentity(v[j], w[j]); }
    }
  }

  /**
   An update step leaves every record it was given the accounts of, and those accounts,
   as an update of that record alone does from the state before the step.
   */
  lemma {:induction false} SlicePlaces(l: Ledger, v: Records, start: nat, stakes: seq<Address>,
                                       delegated: Address -> U64, rent: U64, clock: U64, noMerge: bool)
    requires start + |stakes| / 2 <= |v| && DistinctVotes(v)
    requires UpdateSlice(l, v, start, stakes, delegated, rent, clock, noMerge).Ok?
    ensures var (m, w) := UpdateSlice(l, v, start, stakes, delegated, rent, clock, noMerge).value;
      PlacedAt(l, m, v, w, Chosen(v, start, stakes), delegated, rent, clock, noMerge)
    decreases |stakes|
  {
    hide UpdateRecord, Placed, PlacedAt, Stays, Chosen, SameIdentities, DistinctVotes;
    if |stakes| < 2 {
      NoneChosen(v, start, stakes);
      NonePlacedAt(l, v, delegated, rent, clock, noMerge);
    } else if stakes[..2] != Pair(v[start]) {
      IdentitiesRefl(v);
      ChosenNext(v, v, start, stakes);
      assert Chosen(v, start, stakes) == Chosen(v, start + 1, stakes[2..]);
      SlicePlaces(l, v, start + 1, stakes[2..], delegated, rent, clock, noMerge);
    } else {
      var d := delegated(stakes[0]);
      var (m, s) := UpdateRecord(l, v[start], d, rent, clock, noMerge).value;
      var w := v[start := s];
      OnePlacedAt(l, v, start, delegated, rent, clock, noMerge);
      UpdateStamps(l, v[start], d, rent, clock, noMerge);
      OneIdentity(v, start, s);
      IdentitiesDistinct(v, w);
      ChosenNext(v, w, start, stakes);
      SlicePlaces(m, w, start + 1, stakes[2..], delegated, rent, clock, noMerge);
      var (n, x) := UpdateSlice(m, w, start + 1, stakes[2..], delegated, rent, clock, noMerge).value;
      PlacedAtTrans(l, m, n, v, w, x, {start}, Chosen(w, start + 1, stakes[2..]), delegated, rent, clock, noMerge);
    }
  }

  lemma NoneChosen(v: Records, start: nat, stakes: seq<Address>)
    requires |stakes| < 2
    ensures Chosen(v, start, stakes) == {}
  {
  }

  lemma OneIdentity(v: Records, k: nat, s: ValidatorStakeInfo)
    requires k < |v| && SameIdentity(v[k], s)
    ensures SameIdentities(v, v[k := s])
  {
  }

  /** Records from k on equal their accounts. */
  ghost predicate Booked(l: Ledger, v: Records, k: nat) {
    forall j :: k <= j < |v| ==>
      StandingOf(l, v[j]).lamports == v[j].active && TransientOf(l, v[j]).lamports == v[j].transient
  }

  lemma RecordLeavesOthers(l: Ledger, m: Ledger, v: Records, k: nat, s: ValidatorStakeInfo)
    requires k < |v| && DistinctVotes(v)
    requires SameExcept(l, m, {Reserve, v[k].ValidatorAddress(), v[k].TransientAddress()})
    ensures SameFrom(l, m, v, v[k := s], k + 1)
  {
    forall j | k + 1 <= j < |v|
      ensures TransientOf(m, v[j]) == TransientOf(l, v[j]) && StandingOf(m, v[j]) == StandingOf(l, v[j])
    {
      assert v[j].vote != v[k].vote;
    }
  }

  /** An update step moves the books by exactly what it misses, whatever the status of the records. */
  lemma {:induction false} SliceDrift(p: StakePool, l: Ledger, v: Records, start: nat, stakes: seq<Address>,
                                      delegated: Address -> U64, rent: U64, clock: U64, noMerge: bool, min: nat)
    requires start + |stakes| / 2 <= |v| && DistinctVotes(v) && Booked(l, v, start)
    requires UpdateSlice(l, v, start, stakes, delegated, rent, clock, noMerge).Ok?
    ensures var (m, w) := UpdateSlice(l, v, start, stakes, delegated, rent, clock, noMerge).value;
      Drift(p, m, w, min) == Drift(p, l, v, min) - SliceMissing(l, v, start, stakes, delegated, rent, clock, noMerge)
    decreases |stakes|
  {
    hide UpdateRecord, Missing, Recorded;
    if |stakes| >= 2 {
      if stakes[..2] != Pair(v[start]) {
        SliceDrift(p, l, v, start + 1, stakes[2..], delegated, rent, clock, noMerge, min);
      } else {
        var d := delegated(stakes[0]);
        ConservedIffNothingMissing(l, v[start], d, rent, clock, noMerge);
        UpdateStamps(l, v[start], d, rent, clock, noMerge);
        var (m, s) := UpdateRecord(l, v[start], d, rent, clock, noMerge).value;
        var w := v[start := s];
        RecordLeavesOthers(l, m, v, start, s);
        RecordedUpdate(v, start, s);
        IdentitiesDistinct(v, w);
        SliceDrift(p, m, w, start + 1, stakes[2..], delegated, rent, clock, noMerge, min);
        SliceMissingSame(l, m, v, w, start + 1, stakes[2..], delegated, rent, clock, noMerge);
      }
    }
  }

  lemma RecordKeepsBooks(p: StakePool, l: Ledger, v: Records, k: nat, delegated: U64, rent: U64, clock: U64,
                         noMerge: bool, min: nat)
    requires Sound(p, l, v, min) && k < |v| && UpdateRecord(l, v[k], delegated, rent, clock, noMerge).Ok?
    requires Missing(l, v[k], delegated, rent, clock, noMerge) == 0
    ensures var (m, s) := UpdateRecord(l, v[k], delegated, rent, clock, noMerge).value;
      Sound(p, m, v[k := s], min) && SameFrom(l, m, v, v[k := s], k + 1)
  {
    hide UpdateRecord, Missing, Recorded;
    ConservedIffNothingMissing(l, v[k], delegated, rent, clock, noMerge);
    UpdateStamps(l, v[k], delegated, rent, clock, noMerge);
    var (m, s) := UpdateRecord(l, v[k], delegated, rent, clock, noMerge).value;
    RecordAccounts(l, v, k);
    RecordLeavesOthers(l, m, v, k, s);
    RecordStep(p, p, l, m, v, k, s, min);
  }

  lemma {:induction false} SliceSound(p: StakePool, l: Ledger, v: Records, start: nat, stakes: seq<Address>,
                                      delegated: Address -> U64, rent: U64, clock: U64, noMerge: bool, min: nat)
    requires start + |stakes| / 2 <= |v| && Sound(p, l, v, min)
    requires UpdateSlice(l, v, start, stakes, delegated, rent, clock, noMerge).Ok?
    requires SliceMissing(l, v, start, stakes, delegated, rent, clock, noMerge) == 0
    ensures var (m, w) := UpdateSlice(l, v, start, stakes, delegated, rent, clock, noMerge).value; Sound(p, m, w, min)
    decreases |stakes|
  {
    hide UpdateRecord, Missing, Sound;
    if |stakes| >= 2 {
      if stakes[..2] != Pair(v[start]) {
        SliceSound(p, l, v, start + 1, stakes[2..], delegated, rent, clock, noMerge, min);
      } else {
        RecordKeepsBooks(p, l, v, start, delegated(stakes[0]), rent, clock, noMerge, min);
        var (m, s) := UpdateRecord(l, v[start], delegated(stakes[0]), rent, clock, noMerge).value;
        SliceMissingSame(l, m, v, v[start := s], start + 1, stakes[2..], delegated, rent, clock, noMerge);
        SliceSound(p, m, v[start := s], start + 1, stakes[2..], delegated, rent, clock, noMerge, min);
      }
    }
  }

  /** Balanced books stay balanced through an update step if and only if it misses nothing. */
  lemma SliceKeepsBooksIff(p: StakePool, l: Ledger, v: Records, start: nat, stakes: seq<Address>,
                           delegated: Address -> U64, rent: U64, clock: U64, noMerge: bool, min: nat)
    requires start + |stakes| / 2 <= |v| && Sound(p, l, v, min)
    requires UpdateSlice(l, v, start, stakes, delegated, rent, clock, noMerge).Ok?
    ensures var (m, w) := UpdateSlice(l, v, start, stakes, delegated, rent, clock, noMerge).value;
      Sound(p, m, w, min) <==> SliceMissing(l, v, start, stakes, delegated, rent, clock, noMerge) == 0
  {
    hide UpdateSlice, SliceMissing, Recorded, RecordMatches, NothingElsewhere;
    assert Booked(l, v, start) by {
      forall j | start <= j < |v|
        ensures StandingOf(l, v[j]).lamports == v[j].active && TransientOf(l, v[j]).lamports == v[j].transient
      {
        RecordAccounts(l, v, j);
      }
    }
    SliceDrift(p, l, v, start, stakes, delegated, rent, clock, noMerge, min);
    if SliceMissing(l, v, start, stakes, delegated, rent, clock, noMerge) == 0 {
      SliceSound(p, l, v, start, stakes, delegated, rent, clock, noMerge, min);
    }
  }

  /** The lamports in the accounts of the records. */
  function Lamports(l: Ledger, v: Records): nat {
    if v == [] then 0
    else Balance(l, v[0].ValidatorAddress()) + Balance(l, v[0].TransientAddress()) + Lamports(l, v[1..])
  }

  /** What the pool holds when the first k records are up to date: reserve, recorded, and the accounts of the others. */
  function Value(l: Ledger, v: Records, k: nat): nat
    requires k <= |v|
  {
    Balance(l, Reserve) + Recorded(v[..k]) + Lamports(l, v[k..])
  }

  /** An update misses nothing of the records from k on. */
  ghost predicate NothingMissing(l: Ledger, v: Records, k: nat, delegated: Address -> U64, rent: U64, clock: U64,
                                 noMerge: bool)
  {
    forall j :: k <= j < |v| ==> Missing(l, v[j], delegated(v[j].ValidatorAddress()), rent, clock, noMerge) == 0
  }

  /** The first k records are up to date and agree with their accounts, the others are yet to be counted. */
  ghost predicate Progress(l: Ledger, v: Records, k: nat, delegated: Address -> U64, rent: U64, clock: U64,
                           noMerge: bool)
  {
    && k <= |v|
    && (forall j :: 0 <= j < k ==> v[j].lastUpdateEpoch == clock)
    && (forall j :: 0 <= j < k ==>
          Balance(l, v[j].ValidatorAddress()) == v[j].active && Balance(l, v[j].TransientAddress()) == v[j].transient)
    && NothingMissing(l, v, k, delegated, rent, clock, noMerge)
    && DistinctVotes(v)
  }

  /** Stray addresses stay empty when a record changes. */
  lemma StrayKept(l: Ledger, m: Ledger, v: Records, k: nat, s: ValidatorStakeInfo)
    requires k < |v| && NoStray(l, v) && SameIdentity(v[k], s)
    requires SameExcept(l, m, {Reserve, v[k].ValidatorAddress(), v[k].TransientAddress()})
    ensures NoStray(m, v[k := s])
  {
    var w := v[k := s];
    forall a | Stray(w, a) ensures Balance(m, a) == 0 {
      assert a != w[k].ValidatorAddress() && a != w[k].TransientAddress();
      assert forall i :: 0 <= i < |v| && i != k ==> w[i] == v[i];
      assert Stray(v, a);
    }
  }

  lemma {:induction false} LamportsSame(l: Ledger, m: Ledger, v: Records, k: nat)
    requires k <= |v| && forall j :: k <= j < |v| ==>
      Balance(m, v[j].ValidatorAddress()) == Balance(l, v[j].ValidatorAddress())
      && Balance(m, v[j].TransientAddress()) == Balance(l, v[j].TransientAddress())
    ensures Lamports(m, v[k..]) == Lamports(l, v[k..])
    decreases |v| - k
  {
    if k < |v| {
      assert v[k..][1..] == v[k + 1..];
      LamportsSame(l, m, v, k + 1);
    }
  }

  lemma RecordProgress(l: Ledger, m: Ledger, v: Records, k: nat, s: ValidatorStakeInfo, delegated: Address -> U64,
                       rent: U64, clock: U64, noMerge: bool)
    requires k < |v| && Progress(l, v, k, delegated, rent, clock, noMerge)
    requires SameIdentity(v[k], s) && s.lastUpdateEpoch == clock
    requires Balance(m, v[k].ValidatorAddress()) == s.active && Balance(m, v[k].TransientAddress()) == s.transient
    requires SameExcept(l, m, {Reserve, v[k].ValidatorAddress(), v[k].TransientAddress()})
    ensures Progress(m, v[k := s], k + 1, delegated, rent, clock, noMerge)
    ensures forall j :: k < j < |v| ==>
      Balance(m, v[j].ValidatorAddress()) == Balance(l, v[j].ValidatorAddress())
      && Balance(m, v[j].TransientAddress()) == Balance(l, v[j].TransientAddress())
  {
    hide Missing;
    var w := v[k := s];
    forall j | 0 <= j < |v| && j != k
      ensures At(m, v[j].ValidatorAddress()) == At(l, v[j].ValidatorAddress())
      ensures At(m, v[j].TransientAddress()) == At(l, v[j].TransientAddress())
    {
      assert v[j].vote != v[k].vote;
    }
    forall j | k < j < |v|
      ensures Missing(m, w[j], delegated(w[j].ValidatorAddress()), rent, clock, noMerge) == 0
    {
      MissingSame(l, m, v[j], delegated(v[j].ValidatorAddress()), rent, clock, noMerge);
    }
    IdentitiesDistinct(v, w);
  }

  lemma RecordValue(l: Ledger, m: Ledger, v: Records, k: nat, s: ValidatorStakeInfo, missing: nat)
    requires k < |v|
    requires Balance(m, Reserve) + s.active + s.transient + missing
      == Balance(l, Reserve) + Balance(l, v[k].ValidatorAddress()) + Balance(l, v[k].TransientAddress())
    requires forall j :: k < j < |v| ==>
      Balance(m, v[j].ValidatorAddress()) == Balance(l, v[j].ValidatorAddress())
      && Balance(m, v[j].TransientAddress()) == Balance(l, v[j].TransientAddress())
    ensures Value(m, v[k := s], k + 1) + missing == Value(l, v, k)
  {
    var w := v[k := s];
    assert w[..k + 1] == v[..k] + [s] && w[k + 1..] == v[k + 1..] == v[k..][1..];
    RecordedAppend(v[..k], s);
    LamportsSame(l, m, v, k + 1);
  }

  function Pair(r: ValidatorStakeInfo): seq<Address> {
    [r.ValidatorAddress(), r.TransientAddress()]
  }

  /** The accounts of records, two by two. */
  function Pairs(v: Records): (a: seq<Address>)
    ensures |a| == 2 * |v|
  {
    if v == [] then [] else Pair(v[0]) + Pairs(v[1..])
  }

  /** Active validators stay active. */
  ghost predicate ActiveStay(v: Records, w: Records) {
    |v| == |w| && forall j :: 0 <= j < |v| && v[j].status == Active ==> w[j].status == Active
  }

  /** From k to k' records up to date: the records between changed, value was conserved, nothing went astray. */
  ghost predicate Advanced(l: Ledger, v: Records, k: nat, m: Ledger, w: Records, k': nat, delegated: Address -> U64,
                           rent: U64, clock: U64, noMerge: bool)
  {
    && k <= k' <= |v|
    && Progress(m, w, k', delegated, rent, clock, noMerge)
    && SameIdentities(v, w) && ActiveStay(v, w)
    && Value(m, w, k') == Value(l, v, k)
    && (NoStray(l, v) ==> NoStray(m, w))
    && (forall j :: 0 <= j < k || k' <= j < |v| ==> w[j] == v[j])
  }

  lemma AdvancedRefl(l: Ledger, v: Records, k: nat, delegated: Address -> U64, rent: U64, clock: U64, noMerge: bool)
    requires Progress(l, v, k, delegated, rent, clock, noMerge)
    ensures Advanced(l, v, k, l, v, k, delegated, rent, clock, noMerge)
  {
    hide Value, NoStray, NothingMissing;
  }

  lemma AdvancedTrans(l: Ledger, v: Records, k: nat, m: Ledger, w: Records, k': nat, n: Ledger, x: Records, k'': nat,
                      delegated: Address -> U64, rent: U64, clock: U64, noMerge: bool)
    requires Advanced(l, v, k, m, w, k', delegated, rent, clock, noMerge)
    requires Advanced(m, w, k', n, x, k'', delegated, rent, clock, noMerge)
    ensures Advanced(l, v, k, n, x, k'', delegated, rent, clock, noMerge)
  {
    hide Progress, Value, NoStray;
  }

  lemma OneRecord(l: Ledger, v: Records, k: nat, delegated: Address -> U64, rent: U64, clock: U64, noMerge: bool)
    requires k < |v| && Progress(l, v, k, delegated, rent, clock, noMerge)
    requires UpdateRecord(l, v[k], delegated(v[k].ValidatorAddress()), rent, clock, noMerge).Ok?
    ensures var (m, s) := UpdateRecord(l, v[k], delegated(v[k].ValidatorAddress()), rent, clock, noMerge).value;
      Advanced(l, v, k, m, v[k := s], k + 1, delegated, rent, clock, noMerge)
  {
    hide UpdateRecord, Value, Missing, DistinctVotes, NoStray;
    var d := delegated(v[k].ValidatorAddress());
    ConservedIffNothingMissing(l, v[k], d, rent, clock, noMerge);
    UpdateStamps(l, v[k], d, rent, clock, noMerge);
    var (m, s) := UpdateRecord(l, v[k], d, rent, clock, noMerge).value;
    RecordProgress(l, m, v, k, s, delegated, rent, clock, noMerge);
    RecordValue(l, m, v, k, s, 0);
    if NoStray(l, v) { StrayKept(l, m, v, k, s); }
  }

  lemma SliceEmpty(l: Ledger, v: Records, k: nat, delegated: Address -> U64, rent: U64, clock: U64, noMerge: bool)
    requires k <= |v|
    ensures UpdateSlice(l, v, k, Pairs(v[k..k]), delegated, rent, clock, noMerge) == Ok((l, v))
  {
  }

  /** An update step does the record at its start and goes on from there. */
  lemma SliceUnfold(l: Ledger, v: Records, k: nat, n: nat, delegated: Address -> U64, rent: U64, clock: U64,
                    noMerge: bool)
    requires 0 < n && k + n <= |v|
    ensures var one := UpdateRecord(l, v[k], delegated(v[k].ValidatorAddress()), rent, clock, noMerge);
      UpdateSlice(l, v, k, Pairs(v[k..k + n]), delegated, rent, clock, noMerge) ==
        if one.Err? then Err(one.error)
        else UpdateSlice(one.value.0, v[k := one.value.1], k + 1, Pairs(v[k := one.value.1][k + 1..k + n]), delegated,
                         rent, clock, noMerge)
  {
    hide UpdateRecord;
    var stakes := Pairs(v[k..k + n]);
    assert v[k..k + n][0] == v[k] && v[k..k + n][1..] == v[k + 1..k + n];
    assert stakes == Pair(v[k]) + Pairs(v[k + 1..k + n]);
    assert stakes[2..] == Pairs(v[k + 1..k + n]);
    var one := UpdateRecord(l, v[k], delegated(stakes[0]), rent, clock, noMerge);
    if one.Ok? { assert v[k := one.value.1][k + 1..k + n] == v[k + 1..k + n]; }
  }

  /** One update step brings exactly its records up to date and conserves value. */
  lemma {:induction false} SliceProgress(l: Ledger, v: Records, k: nat, n: nat, delegated: Address -> U64, rent: U64,
                                         clock: U64, noMerge: bool)
    requires k + n <= |v| && Progress(l, v, k, delegated, rent, clock, noMerge)
    requires UpdateSlice(l, v, k, Pairs(v[k..k + n]), delegated, rent, clock, noMerge).Ok?
    ensures var (m, w) := UpdateSlice(l, v, k, Pairs(v[k..k + n]), delegated, rent, clock, noMerge).value;
      Advanced(l, v, k, m, w, k + n, delegated, rent, clock, noMerge)
    decreases n
  {
    hide *;
    if n == 0 {
      SliceEmpty(l, v, k, delegated, rent, clock, noMerge);
      AdvancedRefl(l, v, k, delegated, rent, clock, noMerge);
    } else {
      SliceUnfold(l, v, k, n, delegated, rent, clock, noMerge);
      var (m, s) := UpdateRecord(l, v[k], delegated(v[k].ValidatorAddress()), rent, clock, noMerge).value;
      var w := v[k := s];
      OneRecord(l, v, k, delegated, rent, clock, noMerge);
      AdvancedProgress(l, v, k, m, w, k + 1, delegated, rent, clock, noMerge);
      var rest := UpdateSlice(m, w, k + 1, Pairs(w[k + 1..k + n]), delegated, rent, clock, noMerge);
      SliceProgress(m, w, k + 1, n - 1, delegated, rent, clock, noMerge);
      AdvancedTrans(l, v, k, m, w, k + 1, rest.value.0, rest.value.1, k + n, delegated, rent, clock, noMerge);
    }
  }

  lemma AdvancedProgress(l: Ledger, v: Records, k: nat, m: Ledger, w: Records, k': nat, delegated: Address -> U64,
                         rent: U64, clock: U64, noMerge: bool)
    requires Advanced(l, v, k, m, w, k', delegated, rent, clock, noMerge)
    ensures k' <= |w| == |v| && Progress(m, w, k', delegated, rent, clock, noMerge)
  {
  }

  // --------------------------------- whatever is missed, and whatever the status

  /** The lamports an update of the records from lo to hi loses. */
  function Missed(l: Ledger, v: Records, lo: nat, hi: nat, delegated: Address -> U64, rent: U64, clock: U64,
                  noMerge: bool): nat
    requires lo <= hi <= |v|
    decreases hi - lo
  {
    if lo == hi then 0
    else
      Missing(l, v[lo], delegated(v[lo].ValidatorAddress()), rent, clock, noMerge)
      + Missed(l, v, lo + 1, hi, delegated, rent, clock, noMerge)
  }

  lemma {:induction false} MissedSplit(l: Ledger, v: Records, lo: nat, mid: nat, hi: nat, delegated: Address -> U64,
                                       rent: U64, clock: U64, noMerge: bool)
    requires lo <= mid <= hi <= |v|
    ensures Missed(l, v, lo, hi, delegated, rent, clock, noMerge)
         == Missed(l, v, lo, mid, delegated, rent, clock, noMerge)
            + Missed(l, v, mid, hi, delegated, rent, clock, noMerge)
    decreases mid - lo
  {
    hide Missing;
    if lo < mid { MissedSplit(l, v, lo + 1, mid, hi, delegated, rent, clock, noMerge); }
  }

  lemma {:induction false} MissedSame(l: Ledger, m: Ledger, v: Records, w: Records, k: nat, lo: nat, hi: nat,
                                      delegated: Address -> U64, rent: U64, clock: U64, noMerge: bool)
    requires k <= lo <= hi <= |v| && SameFrom(l, m, v, w, k)
    ensures Missed(m, w, lo, hi, delegated, rent, clock, noMerge)
         == Missed(l, v, lo, hi, delegated, rent, clock, noMerge)
    decreases hi - lo
  {
    if lo < hi {
      MissingSame(l, m, v[lo], delegated(v[lo].ValidatorAddress()), rent, clock, noMerge);
      hide Missing;
      MissedSame(l, m, v, w, k, lo + 1, hi, delegated, rent, clock, noMerge);
    }
  }

  lemma {:induction false} NothingMissingIff(l: Ledger, v: Records, k: nat, delegated: Address -> U64, rent: U64,
                                             clock: U64, noMerge: bool)
    requires k <= |v|
    ensures NothingMissing(l, v, k, delegated, rent, clock, noMerge) <==>
      Missed(l, v, k, |v|, delegated, rent, clock, noMerge) == 0
    decreases |v| - k
  {
    hide Missing;
    if k < |v| { NothingMissingIff(l, v, k + 1, delegated, rent, clock, noMerge); }
  }

  function Range(lo: nat, hi: nat): (s: set<nat>)
    ensures forall j: nat :: j in s <==> lo <= j < hi
    decreases hi - lo
  {
    if lo < hi then {lo} + Range(lo + 1, hi) else {}
  }

  /**
   From k to k', every record was stamped and placed with its accounts, and the value
   fell by exactly what was missed.
   */
  ghost predicate Reached(l: Ledger, v: Records, k: nat, m: Ledger, w: Records, k': nat, delegated: Address -> U64,
                          rent: U64, clock: U64, noMerge: bool)
  {
    && k <= k' <= |v| && SameIdentities(v, w) && DistinctVotes(v) && SameFrom(l, m, v, w, k')
    && (forall j :: k <= j < k' ==> w[j].lastUpdateEpoch == clock)
    && (forall j :: 0 <= j < k ==> w[j] == v[j])
    && Value(m, w, k') + Missed(l, v, k, k', delegated, rent, clock, noMerge) == Value(l, v, k)
    && PlacedAt(l, m, v, w, Range(k, k'), delegated, rent, clock, noMerge)
  }

  lemma ReachedRefl(l: Ledger, v: Records, k: nat, delegated: Address -> U64, rent: U64, clock: U64, noMerge: bool)
    requires k <= |v| && DistinctVotes(v)
    ensures Reached(l, v, k, l, v, k, delegated, rent, clock, noMerge)
  {
    hide Value, Missing, PlacedAt;
    NonePlacedAt(l, v, delegated, rent, clock, noMerge);
    assert Range(k, k) == {};
  }

  lemma ReachedTrans(l: Ledger, v: Records, k: nat, m: Ledger, w: Records, k': nat, n: Ledger, x: Records, k'': nat,
                     delegated: Address -> U64, rent: U64, clock: U64, noMerge: bool)
    requires Reached(l, v, k, m, w, k', delegated, rent, clock, noMerge)
    requires Reached(m, w, k', n, x, k'', delegated, rent, clock, noMerge)
    ensures Reached(l, v, k, n, x, k'', delegated, rent, clock, noMerge)
  {
    hide Value, Missing, Missed, PlacedAt;
    PlacedAtTrans(l, m, n, v, w, x, Range(k, k'), Range(k', k''), delegated, rent, clock, noMerge);
    assert Range(k, k') + Range(k', k'') == Range(k, k'');
    MissedSplit(l, v, k, k', k'', delegated, rent, clock, noMerge);
    MissedSame(l, m, v, w, k', k', k'', delegated, rent, clock, noMerge);
    IdentitiesTrans(v, w, x);
  }

  lemma OneReached(l: Ledger, v: Records, k: nat, delegated: Address -> U64, rent: U64, clock: U64, noMerge: bool)
    requires k < |v| && DistinctVotes(v)
    requires UpdateRecord(l, v[k], delegated(v[k].ValidatorAddress()), rent, clock, noMerge).Ok?
    ensures var (m, s) := UpdateRecord(l, v[k], delegated(v[k].ValidatorAddress()), rent, clock, noMerge).value;
      Reached(l, v, k, m, v[k := s], k + 1, delegated, rent, clock, noMerge)
  {
    hide UpdateRecord, Value, Missing, PlacedAt;
    var d := delegated(v[k].ValidatorAddress());
    ConservedIffNothingMissing(l, v[k], d, rent, clock, noMerge);
    UpdateStamps(l, v[k], d, rent, clock, noMerge);
    var (m, s) := UpdateRecord(l, v[k], d, rent, clock, noMerge).value;
    OnePlacedAt(l, v, k, delegated, rent, clock, noMerge);
    assert Range(k, k + 1) == {k};
    RecordLeavesOthers(l, m, v, k, s);
    RecordValue(l, m, v, k, s, Missing(l, v[k], d, rent, clock, noMerge));
    assert Missed(l, v, k + 1, k + 1, delegated, rent, clock, noMerge) == 0;
  }

  lemma ReachedDistinct(l: Ledger, v: Records, k: nat, m: Ledger, w: Records, k': nat, delegated: Address -> U64,
                        rent: U64, clock: U64, noMerge: bool)
    requires Reached(l, v, k, m, w, k', delegated, rent, clock, noMerge)
    ensures k' <= |w| == |v| && DistinctVotes(w)
  {
    hide Value, Missed, PlacedAt;
    IdentitiesDistinct(v, w);
  }

  /** One update step stamps all its records, and loses exactly what is missed of them. */
  lemma {:induction false} SliceReached(l: Ledger, v: Records, k: nat, n: nat, delegated: Address -> U64, rent: U64,
                                        clock: U64, noMerge: bool)
    requires k + n <= |v| && DistinctVotes(v)
    requires UpdateSlice(l, v, k, Pairs(v[k..k + n]), delegated, rent, clock, noMerge).Ok?
    ensures var (m, w) := UpdateSlice(l, v, k, Pairs(v[k..k + n]), delegated, rent, clock, noMerge).value;
      Reached(l, v, k, m, w, k + n, delegated, rent, clock, noMerge)
    decreases n
  {
    hide *;
    if n == 0 {
      SliceEmpty(l, v, k, delegated, rent, clock, noMerge);
      ReachedRefl(l, v, k, delegated, rent, clock, noMerge);
    } else {
      SliceUnfold(l, v, k, n, delegated, rent, clock, noMerge);
      var (m, s) := UpdateRecord(l, v[k], delegated(v[k].ValidatorAddress()), rent, clock, noMerge).value;
      var w := v[k := s];
      OneReached(l, v, k, delegated, rent, clock, noMerge);
      ReachedDistinct(l, v, k, m, w, k + 1, delegated, rent, clock, noMerge);
      var rest := UpdateSlice(m, w, k + 1, Pairs(w[k + 1..k + n]), delegated, rent, clock, noMerge);
      SliceReached(m, w, k + 1, n - 1, delegated, rent, clock, noMerge);
      ReachedTrans(l, v, k, m, w, k + 1, rest.value.0, rest.value.1, k + n, delegated, rent, clock, noMerge);
    }
  }

  /** The reserve is a stake account that could hold all the pool's lamports. */
  predicate Holds(l: Ledger, v: Records, rent: U64) {
    !At(l, Reserve).kind.Uninitialized? && rent > 0 && Balance(l, Reserve) + Lamports(l, v) <= U64_MAX
  }

  /** An update step of listed accounts is never refused, as long as the reserve can hold what the pool has. */
  lemma {:induction false} SliceSucceeds(l: Ledger, v: Records, k: nat, n: nat, delegated: Address -> U64, rent: U64,
                                         clock: U64, noMerge: bool)
    requires k + n <= |v| && DistinctVotes(v) && rent > 0
    requires !At(l, Reserve).kind.Uninitialized? && Balance(l, Reserve) + Lamports(l, v[k..]) <= U64_MAX
    ensures UpdateSlice(l, v, k, Pairs(v[k..k + n]), delegated, rent, clock, noMerge).Ok?
    decreases n
  {
    hide *;
    if n == 0 {
      SliceEmpty(l, v, k, delegated, rent, clock, noMerge);
    } else {
      SliceUnfold(l, v, k, n, delegated, rent, clock, noMerge);
      var d := delegated(v[k].ValidatorAddress());
      RecordSucceeds(l, v, k, delegated, rent, clock, noMerge);
      var (m, s) := UpdateRecord(l, v[k], d, rent, clock, noMerge).value;
      SliceSucceeds(m, v[k := s], k + 1, n - 1, delegated, rent, clock, noMerge);
    }
  }

  /** After some of the steps for a list, the next one is not refused either. */
  lemma NextSucceeds(l: Ledger, v: Records, m: Ledger, w: Records, k: nat, n: nat, delegated: Address -> U64, rent: U64,
                     clock: U64, noMerge: bool)
    requires Reached(l, v, 0, m, w, k, delegated, rent, clock, noMerge) && k + n <= |v|
    ensures k + n <= |w|
    ensures Holds(l, v, rent) ==> UpdateSlice(m, w, k, Pairs(w[k..k + n]), delegated, rent, clock, noMerge).Ok?
  {
    hide Missed, Placed, Pairs, UpdateSlice;
    ReachedDistinct(l, v, 0, m, w, k, delegated, rent, clock, noMerge);
    if Holds(l, v, rent) {
      NothingUpdated(l, v);
      SliceSucceeds(m, w, k, n, delegated, rent, clock, noMerge);
    }
  }

  lemma RecordSucceeds(l: Ledger, v: Records, k: nat, delegated: Address -> U64, rent: U64, clock: U64, noMerge: bool)
    requires k < |v| && DistinctVotes(v) && rent > 0
    requires !At(l, Reserve).kind.Uninitialized? && Balance(l, Reserve) + Lamports(l, v[k..]) <= U64_MAX
    ensures var r := UpdateRecord(l, v[k], delegated(v[k].ValidatorAddress()), rent, clock, noMerge);
      r.Ok? && !At(r.value.0, Reserve).kind.Uninitialized?
      && var w := v[k := r.value.1];
         k + 1 <= |w| == |v| && DistinctVotes(w)
         && Balance(r.value.0, Reserve) + Lamports(r.value.0, w[k + 1..]) <= U64_MAX
  {
    hide UpdateRecord, Missing, Placed, Gain;
    var d := delegated(v[k].ValidatorAddress());
    assert v[k..][0] == v[k] && v[k..][1..] == v[k + 1..];
    UpdateSucceeds(l, v[k], d, rent, clock, noMerge);
    ConservedIffNothingMissing(l, v[k], d, rent, clock, noMerge);
    UpdateRecordPlaces(l, v[k], d, rent, clock, noMerge);
    UpdateStamps(l, v[k], d, rent, clock, noMerge);
    var (m, s) := UpdateRecord(l, v[k], d, rent, clock, noMerge).value;
    assert v[k := s][k + 1..] == v[k + 1..];
    OneIdentity(v, k, s);
    IdentitiesDistinct(v, v[k := s]);
    RecordLeavesOthers(l, m, v, k, s);
    LamportsSame(l, m, v, k + 1);
  }

  /** A whole list reached: nothing is out of date, and the books show what was held before less what was missed. */
  lemma AllReached(l: Ledger, v: Records, m: Ledger, w: Records, delegated: Address -> U64, rent: U64, clock: U64,
                   noMerge: bool)
    requires Reached(l, v, 0, m, w, |w|, delegated, rent, clock, noMerge)
    ensures |w| == |v| && forall i :: 0 <= i < |w| ==> w[i].lastUpdateEpoch == clock
    ensures Balance(m, Reserve) + Recorded(w) + Missed(l, v, 0, |v|, delegated, rent, clock, noMerge)
         == Balance(l, Reserve) + Lamports(l, v)
  {
    hide Missed, PlacedAt;
    NothingUpdated(l, v);
    assert w[..|w|] == w && w[|w|..] == [];
  }

  // ----------------------------------------------------------- the client

  const MAX_VALIDATORS_TO_UPDATE: nat := 5

  datatype UpdateInstruction = UpdateInstruction(start: nat, stakes: seq<Address>, noMerge: bool)

  /** The accounts of each validator, found in the list by its vote address; unknown ones are left out. */
  function StakesOf(v: Records, votes: seq<nat>): seq<Address> {
    if votes == [] then []
    else (if FindVote(v, votes[0]).Some? then Pair(RecordOf(v, votes[0])) else []) + StakesOf(v, votes[1..])
  }

  function Votes(v: Records): (r: seq<nat>)
    ensures |r| == |v| && forall i :: 0 <= i < |v| ==> r[i] == v[i].vote
  {
    seq(|v|, i requires 0 <= i < |v| => v[i].vote)
  }

  /** With distinct votes, looking validators up by vote gives the accounts of their own records. */
  lemma {:induction false} StakesOfOwn(v: Records, lo: nat, hi: nat)
    requires lo <= hi <= |v| && DistinctVotes(v)
    ensures StakesOf(v, Votes(v)[lo..hi]) == Pairs(v[lo..hi])
    decreases hi - lo
  {
    if lo < hi {
      var votes := Votes(v)[lo..hi];
      assert votes[0] == v[lo].vote && votes[1..] == Votes(v)[lo + 1..hi];
      var found := FindVote(v, v[lo].vote);
      assert found.Some? && found.value == lo;
      assert v[lo..hi][0] == v[lo] && v[lo..hi][1..] == v[lo + 1..hi];
      StakesOfOwn(v, lo + 1, hi);
    }
  }

  function Least(a: nat, b: nat): nat {
    if a < b then a else b
  }

  /** The i-th instruction: the accounts of records 5 i to 5 i + 4, as far as there are any. */
  predicate IsInstruction(v: Records, i: nat, x: UpdateInstruction, noMerge: bool) {
    5 * i <= |v| && x == UpdateInstruction(5 * i, Pairs(v[5 * i..Least(5 * i + 5, |v|)]), noMerge)
  }

  /** The instructions a client sends for the list: chunks of five, each with the index of its first record. */
  method UpdateListInstructions(v: Records, noMerge: bool) returns (r: seq<UpdateInstruction>)
    requires |v| < 0x1_0000_0000 && DistinctVotes(v)
    ensures |v| <= 5 * |r| < |v| + 5
    ensures forall i :: 0 <= i < |r| ==> IsInstruction(v, i, r[i], noMerge)
  {
    hide StakesOf, Pairs, DistinctVotes, FindVote, Votes, IsInstruction, Least;
    var votes := Votes(v);
    r := [];
    var startIndex := 0;
    LeastIs(0, |v|);
    while votes != []
      invariant startIndex == 5 * |r| && startIndex < |v| + 5
      invariant Least(startIndex, |v|) <= |v| && votes == Votes(v)[Least(startIndex, |v|)..]
      invariant forall i :: 0 <= i < |r| ==> IsInstruction(v, i, r[i], noMerge)
      decreases |votes|
    {
      LeastIs(startIndex, |v|);
      LeastIs(MAX_VALIDATORS_TO_UPDATE, |votes|);
      var size := Least(MAX_VALIDATORS_TO_UPDATE, |votes|);
      var chunk := votes[..size];
      NextChunk(v, |r|, votes, noMerge);
      r := r + [UpdateInstruction(startIndex, StakesOf(v, chunk), noMerge)];
      startIndex := startIndex + MAX_VALIDATORS_TO_UPDATE;
      votes := votes[size..];
    }
    LeastIs(startIndex, |v|);
  }

  lemma LeastIs(a: nat, b: nat)
    ensures Least(a, b) == if a < b then a else b
  {
  }

  lemma ChunkOf(v: Records, s: nat, votes: seq<nat>, size: nat)
    requires DistinctVotes(v) && s + size <= |v| && votes == Votes(v)[s..]
    ensures StakesOf(v, votes[..size]) == Pairs(v[s..s + size]) && votes[size..] == Votes(v)[s + size..]
  {
    hide *;
    var all := Votes(v);
    assert votes[..size] == all[s..s + size] && votes[size..] == all[s + size..];
    StakesOfOwn(v, s, s + size);
  }

  lemma NextChunk(v: Records, i: nat, votes: seq<nat>, noMerge: bool)
    requires DistinctVotes(v) && 5 * i < |v| && votes == Votes(v)[5 * i..]
    ensures var size := Least(MAX_VALIDATORS_TO_UPDATE, |votes|);
      && IsInstruction(v, i, UpdateInstruction(5 * i, StakesOf(v, votes[..size]), noMerge), noMerge)
      && Least(5 * i + 5, |v|) <= |v| && votes[size..] == Votes(v)[Least(5 * i + 5, |v|)..]
  {
    assert MAX_VALIDATORS_TO_UPDATE == 5;
    hide *;
    var start, size := 5 * i, Least(MAX_VALIDATORS_TO_UPDATE, |votes|);
    LeastIs(MAX_VALIDATORS_TO_UPDATE, |votes|);
    LeastIs(start + 5, |v|);
    ChunkOf(v, start, votes, size);
    InstructionIs(v, i, size, noMerge);
  }

  lemma InstructionIs(v: Records, i: nat, size: nat, noMerge: bool)
    requires 5 * i <= |v| && 5 * i + size == Least(5 * i + 5, |v|) <= |v|
    ensures IsInstruction(v, i, UpdateInstruction(5 * i, Pairs(v[5 * i..5 * i + size]), noMerge), noMerge)
  {
  }

  /** The accounts named by a snapshot of the list are those of the list as it is updated. */
  lemma {:induction false} SamePairs(v: Records, w: Records, lo: nat, hi: nat)
    requires SameIdentities(v, w) && lo <= hi <= |v|
    ensures Pairs(v[lo..hi]) == Pairs(w[lo..hi])
    decreases hi - lo
  {
    if lo < hi {
      assert v[lo..hi][1..] == v[lo + 1..hi] && w[lo..hi][1..] == w[lo + 1..hi];
      SamePairs(v, w, lo + 1, hi);
    }
  }

  /** An update step only fails where the stake program refuses. */
  lemma {:induction false} SliceErrors(l: Ledger, v: Records, start: nat, stakes: seq<Address>,
                                       delegated: Address -> U64, rent: U64, clock: U64, noMerge: bool)
    requires start + |stakes| / 2 <= |v|
    ensures var r := UpdateSlice(l, v, start, stakes, delegated, rent, clock, noMerge); r.Err? ==>
      r.error == StakeProgramRefused
    decreases |stakes|
  {
    if |stakes| >= 2 {
      var one := UpdateRecord(l, v[start], delegated(stakes[0]), rent, clock, noMerge);
      if stakes[0] != v[start].ValidatorAddress() || stakes[1] != v[start].TransientAddress() {
        SliceErrors(l, v, start + 1, stakes[2..], delegated, rent, clock, noMerge);
      } else if one.Ok? {
        hide UpdateRecord;
        SliceErrors(one.value.0, v[start := one.value.1], start + 1, stakes[2..], delegated, rent, clock, noMerge);
      }
    }
  }

  /** When everything is up to date, value is what the books show. */
  lemma AllUpdated(l: Ledger, v: Records, delegated: Address -> U64, rent: U64, clock: U64, noMerge: bool)
    requires Progress(l, v, |v|, delegated, rent, clock, noMerge)
    ensures Value(l, v, |v|) == Balance(l, Reserve) + Recorded(v)
    ensures forall i :: 0 <= i < |v| ==> v[i].lastUpdateEpoch >= clock
    ensures NoStray(l, v) ==> Matches(l, v) && DistinctVotes(v)
  {
    if NoStray(l, v) { NoStrayMatches(l, v); }
    assert v[..|v|] == v && v[|v|..] == [];
  }

  lemma {:induction false} KeptAll(v: Records)
    requires forall i :: 0 <= i < |v| ==> v[i].IsNotRemoved()
    ensures Kept(v) == v
  {
    if v != [] {
      assert forall i :: 0 <= i < |v[1..]| ==> v[1..][i] == v[i + 1];
      KeptAll(v[1..]);
    }
  }

  /** A whole list advanced: nothing is out of date, and the books show what reserve and accounts held before. */
  lemma AllAdvanced(l: Ledger, v: Records, m: Ledger, w: Records, delegated: Address -> U64, rent: U64, clock: U64,
                    noMerge: bool)
    requires Advanced(l, v, 0, m, w, |w|, delegated, rent, clock, noMerge)
    ensures Balance(m, Reserve) + Recorded(w) == Balance(l, Reserve) + Lamports(l, v)
    ensures forall i :: 0 <= i < |w| ==> w[i].lastUpdateEpoch >= clock
    ensures NoStray(l, v) ==> Matches(m, w)
    ensures SameIdentities(v, w) && ActiveStay(v, w)
  {
    AllUpdated(m, w, delegated, rent, clock, noMerge);
    NothingUpdated(l, v);
  }

  lemma ProgressStarts(l: Ledger, v: Records, delegated: Address -> U64, rent: U64, clock: U64, noMerge: bool)
    requires DistinctVotes(v) && NothingMissing(l, v, 0, delegated, rent, clock, noMerge)
    ensures Progress(l, v, 0, delegated, rent, clock, noMerge)
  {
  }

  lemma IdentitiesRefl(v: Records)
    ensures SameIdentities(v, v)
  {
  }

  lemma IdentitiesTrans(v: Records, w: Records, x: Records)
    requires SameIdentities(v, w) && SameIdentities(w, x)
    ensures SameIdentities(v, x)
  {
  }

  lemma NothingUpdated(l: Ledger, v: Records)
    ensures Value(l, v, 0) == Balance(l, Reserve) + Lamports(l, v)
  {
    assert v[..0] == [] && v[0..] == v;
  }
}
